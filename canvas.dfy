/**
 * `GeoCanvas`: a page canvas that owns the current page's content buffer and the
 * per-page accumulator of serialised GeoPDF dictionaries. `AddGeo` appends to the
 * accumulator, `StartPage` resets the per-page state, and `ShowPage` finalises the
 * page by splicing its buffer in place, attaches the accumulator to the page and
 * hands the page to the document.
 */
module Canvas {
  import opened Wrappers
  import opened GeoDict
  import opened Finalizer

  /** The document object a serialised dictionary becomes (`lgi.format(doc)`). */
  datatype Ref = Ref(objectNumber: nat, dict: Value)

  /** What a finished page carries under its `LGIDict` key. */
  datatype Attachment =
    | NoGeo             // the key is not set
    | One(ref: Ref)     // a single dictionary, unwrapped
    | Many(refs: seq<Ref>)   // the accumulator array itself

  /** The references an attachment carries, in order. */
  function AttachedRefs(a: Attachment): seq<Ref> {
    match a
    case NoGeo => []
    case One(r) => [r]
    case Many(rs) => rs
  }

  /**
   * The attachment made at page close. The accumulator array is attached when it is
   * truthy: always when it holds entries, and when empty only if the array class says
   * so (`emptyTruthy`). A single entry is attached unwrapped.
   */
  function Attach(acc: seq<Ref>, emptyTruthy: bool): (a: Attachment)
    ensures AttachedRefs(a) == acc
    ensures a.One? <==> |acc| == 1
    ensures a.NoGeo? <==> acc == [] && !emptyTruthy
  {
    if |acc| > 0 || emptyTruthy then
      if |acc| == 1 then One(acc[0]) else Many(acc)
    else
      NoGeo
  }

  /** `C = code[cx0:]; del code[cx0:]; code[0:0] = C` moves the tail after `cx0` to the front. */
  lemma MoveTailToFront(head: seq<Token>, tail: seq<Token>)
    ensures var code := head + tail; code[|head|..] + code[..|head|] == tail + head
  {
    var code := head + tail;
    assert code[|head|..] == tail;
    assert code[..|head|] == head;
  }

  /** A finished page as handed to the document. */
  datatype Page = Page(width: real, height: real, geo: Attachment, stream: seq<Token>)

  class GeoCanvas {
    /** The current page's content buffer. */
    var code: seq<Token>
    /** The per-page accumulator: the entries of the `LGIDict` array. */
    var lgiRefs: seq<Ref>
    /** The page size (width, height). */
    var pagesize: (real, real)
    /** The crop-mark configuration, if any. */
    var cropMarks: Option<CropMarks>
    /** Out-of-band instructions placed before and after the buffer in the page stream. */
    var psBefore: seq<Token>
    var preamble: Token
    var psAfter: seq<Token>
    /** The pages handed to the document so far. */
    var pages: seq<Page>
    /** Whether the library's array object is truthy when it holds no entries. */
    const emptyArrayTruthy: bool

    constructor (pagesize: (real, real), cropMarks: Option<CropMarks>, preamble: Token, emptyArrayTruthy: bool)
      ensures this.pagesize == pagesize && this.cropMarks == cropMarks
      ensures this.preamble == preamble && this.emptyArrayTruthy == emptyArrayTruthy
      ensures code == [] && lgiRefs == [] && pages == [] && psBefore == [] && psAfter == []
    {
      this.pagesize := pagesize;
      this.cropMarks := cropMarks;
      this.preamble := preamble;
      this.emptyArrayTruthy := emptyArrayTruthy;
      code := [];
      lgiRefs := [];
      pages := [];
      psBefore := [];
      psAfter := [];
    }

    /** A drawing call on the canvas: it appends its instruction to the buffer. */
    method Draw(p: Primitive)
      modifies this`code
      ensures code == old(code) + [Op(p)]
    {
      code := code + [Op(p)];
    }

    /** `_startPage`: a fresh, empty buffer and a fresh, empty accumulator. */
    method StartPage()
      modifies this`code, this`lgiRefs
      ensures code == [] && lgiRefs == []
    {
      code := [];
      lgiRefs := [];
    }

    /**
     * `addGeo(**overrides)`: build a defaulted `LGIDict`, apply the overrides, and if
     * it is valid serialise it as object `objectNumber` and append the reference to
     * the accumulator. An invalid dictionary is dropped silently.
     */
    method AddGeo(overrides: Entries, objectNumber: nat) returns (r: Option<Ref>)
      modifies this`lgiRefs
      ensures IsValid(BuildLgi(overrides)) ==>
        r == Some(Ref(objectNumber, BuildLgi(overrides))) && lgiRefs == old(lgiRefs) + [r.value]
      ensures !IsValid(BuildLgi(overrides)) ==> r == None && lgiRefs == old(lgiRefs)
    {
      var lgi := NewDict(Lgi, None);
      lgi := Dict(Lgi, lgi.entries + overrides);
      var ok := CheckValid(lgi);
      if !ok {
        return None;
      }
      var obj := Ref(objectNumber, lgi);
      lgiRefs := lgiRefs + [obj];
      return Some(obj);
    }

    /**
     * `showPage`: finalise the page as `Finalize` describes, attach the accumulator,
     * hand the page to the document and start a new page. When an exception is raised
     * the buffer is left as it stood at that point and nothing else changes.
     */
    method ShowPage() returns (raised: Option<Fault>)
      modifies this`code, this`lgiRefs, this`pages
      ensures var f := Finalize(old(code), cropMarks, pagesize.0, pagesize.1);
        && (f.Finished? ==>
              && raised.None?
              && pages == old(pages) + [Page(f.width, f.height, Attach(old(lgiRefs), emptyArrayTruthy),
                                             psBefore + [preamble] + f.code + psAfter)]
              && code == [] && lgiRefs == [])
        && (f.Raised? ==>
              && raised == Some(f.fault)
              && code == f.partial && lgiRefs == old(lgiRefs) && pages == old(pages))
    {
      var pageWidth := pagesize.0;
      var pageHeight := pagesize.1;
      ghost var content := code;
      ghost var f := Finalize(content, cropMarks, pageWidth, pageHeight);
      var cM := cropMarks;
      raised := None;
      if cM.Some? {
        var bw := Max0(cM.value.borderWidth.GetOr(36.0));
        if bw != 0.0 {
          raised, pageWidth, pageHeight := BorderAndBleed(cM.value, pageWidth, pageHeight);
          if raised.Some? {
            return;
          }
        }
      }
      assert f == Finished(code + [Space], pageWidth, pageHeight);
      code := code + [Space];
      var page := Page(pageWidth, pageHeight, Attach(lgiRefs, emptyArrayTruthy), psBefore + [preamble] + code + psAfter);
      pages := pages + [page];
      StartPage();
    }

    /**
     * The crop-mark branch of `showPage`, taken when the effective border is not zero:
     * draw the marks (holding them back when they are to be drawn last), open the
     * translate/scale wrapper, move it to the front of the buffer, close it, re-append
     * the held-back marks, and return the enlarged page size.
     */
    method BorderAndBleed(cM: CropMarks, pageWidth: real, pageHeight: real)
      returns (raised: Option<Fault>, width: real, height: real)
      requires Effective(cM).bw != 0.0
      modifies this`code
      ensures var f := Finalize(old(code), Some(cM), pageWidth, pageHeight);
        && (f.Finished? ==> raised.None? && code + [Space] == f.code && width == f.width && height == f.height)
        && (f.Raised? ==> raised == Some(f.fault) && code == f.partial)
    {
      ghost var content := code;
      var s := Effective(cM);
      ghost var marks := if s.Drawn() then MarkTokens(s, pageWidth, pageHeight) else [];
      ghost var lead := if s.markLast then [] else marks;
      var cx0, held := DrawMarks(s, pageWidth, pageHeight);
      raised := OpenWrapper(s, pageWidth, pageHeight);
      if raised.Some? {
        FinalizeBorderedZeroDivision(content, cM, pageWidth, pageHeight);
        return raised, pageWidth, pageHeight;
      }
      ghost var wrap := WrapperTokens(s, pageWidth, pageHeight);
      assert code == content + (lead + wrap);
      // move the wrapper (and any marks drawn first) to the front
      var wrapper := code[cx0..];
      code := code[..cx0];
      code := wrapper + code;
      MoveTailToFront(content, lead + wrap);
      Draw(RestoreState);
      if s.markLast {
        if held.None? {
          // `L` was never bound: UnboundLocalError
          FinalizeBorderedUnbound(content, cM, pageWidth, pageHeight);
          return Some(UnboundMarks), pageWidth, pageHeight;
        }
        code := code + held.value;
      }
      assert code == lead + wrap + content + [Op(RestoreState)] + (if s.markLast then marks else []);
      FinalizeBorderedFinished(content, cM, pageWidth, pageHeight);
      return None, 2.0 * s.bw + pageWidth, 2.0 * s.bw + pageHeight;
    }

    /**
     * Record where the buffer ends (`cx0`) and, when the marks are drawn, draw them in a
     * save/restore scope; when they are to be drawn last, take them back out of the
     * buffer and return them as the held-back run `L`.
     */
    method DrawMarks(s: Settings, pageWidth: real, pageHeight: real)
      returns (cx0: nat, held: Option<seq<Token>>)
      modifies this`code
      ensures cx0 == |old(code)|
      ensures code == old(code) + (if s.markLast || !s.Drawn() then [] else MarkTokens(s, pageWidth, pageHeight))
      ensures held == (if s.markLast && s.Drawn() then Some(MarkTokens(s, pageWidth, pageHeight)) else None)
    {
      ghost var content := code;
      cx0 := |code|;
      held := None;
      if s.ml != 0.0 && s.mc != NoColor {
        Draw(SaveState);
        Draw(SetStrokeColor(s.mc));
        Draw(SetLineWidth(s.mw));
        Draw(Lines(MarkSegments(s.bw, s.ml, s.mg, pageWidth, pageHeight)));
        Draw(RestoreState);
        assert code == content + MarkTokens(s, pageWidth, pageHeight);
        if s.markLast {
          assert code[cx0..] == MarkTokens(s, pageWidth, pageHeight);
          held := Some(code[cx0..]);
          code := code[..cx0];
          cx0 := |code|;
        }
      }
    }

    /**
     * Open the wrapper scope: save, translate the origin by `bw - bleedW` and, when there
     * is bleed, scale by `1 + 2*bleedW/side` along each side. A zero page side makes the
     * division raise after the translation has been drawn.
     */
    method OpenWrapper(s: Settings, pageWidth: real, pageHeight: real) returns (raised: Option<Fault>)
      modifies this`code
      ensures raised == (if s.bleedW != 0.0 && (pageWidth == 0.0 || pageHeight == 0.0) then Some(ZeroDivision) else None)
      ensures raised.None? ==> code == old(code) + WrapperTokens(s, pageWidth, pageHeight)
      ensures raised.Some? ==> code == old(code) + [Op(SaveState), Op(Translate(s.bw - s.bleedW, s.bw - s.bleedW))]
    {
      Draw(SaveState);
      Draw(Translate(s.bw - s.bleedW, s.bw - s.bleedW));
      if s.bleedW != 0.0 {
        if pageWidth == 0.0 || pageHeight == 0.0 {
          // the scale factor divides by a zero page side: ZeroDivisionError
          return Some(ZeroDivision);
        }
        Draw(Scale(BleedScale(s.bleedW, pageWidth), BleedScale(s.bleedW, pageHeight)));
      }
      return None;
    }
  }
}
