# GeoPDF canvas model

A Dafny model of the core of `geopdf`, a ReportLab extension that writes GeoPDF
pages. The model covers two parts of the package.

- **The geospatial dictionaries.**
  - `GeoPDFBase` and its subclasses `Projection` and `LGIDict` fill in default
    entries with `setdefault`, so an entry the caller supplied is never
    overwritten.
  - `LGIDict.is_valid` requires a `Registration` or `CTM` entry, and it requires
    every nested dictionary to report valid.
- **The canvas, `GeoCanvas`.**
  - `addGeo` builds a defaulted `LGIDict`, applies the caller's overrides, drops
    the result if it is invalid, and otherwise appends its serialised reference
    to the page's accumulator.
  - `showPage` handles crop marks. It clamps the settings and draws the marks.
    The marks go either in front of the page content or, held back, after it.
    It opens a translate/scale wrapper around the page's drawing, moves that
    wrapper to the front of the buffer and closes it. It then grows the page by
    the border on every side.
  - `showPage` then appends the separator, attaches the accumulator (a single
    reference unwrapped), hands the page to the document and starts a new page.
  - `_startPage` resets the buffer and the accumulator.

Modules:

- `Wrappers` (`wrappers.dfy`): `Option`.
- `GeoDict` (`geo_dict.dfy`): the dictionary values, the defaulting operations, the
  validity predicate and the loop that checks it, and their properties.
- `Finalizer` (`finalizer.dfy`): the crop-mark settings and their clamping, the mark
  geometry, and `Finalize`, the declarative description of what `showPage` does to
  the buffer and the page size, together with lemmas about it. The lemmas cover when
  it raises, the content kept in order, save/restore balance and the bleed geometry.
- `Canvas` (`canvas.dfy`): the `GeoCanvas` class. Its fields are the buffer, the
  accumulator, the page size, the crop-mark settings, the stream's surrounding
  commands and the pages handed to the document so far. Its methods update those
  fields in place and are proved against `Finalize` and `GeoDict`.

Drawing calls (`saveState`, `translate`, `lines`, ...) are modelled as one token
each, `Op(primitive)`, appended to the buffer. The separator appended at the end is
the token `Text(" ")`.

`showPage` is one long method in the source. In the model its crop-mark branch
(lines 88-133) is the method `BorderAndBleed`. That method calls `DrawMarks`
(lines 95-116) and `OpenWrapper` (lines 118-123). `BorderAndBleed` itself keeps the
splice (lines 125-128), the closing restore and the re-appended marks.

### Two ways `showPage` raises

Every crop-mark setting is clamped, yet the code can still raise in two cases. The
model follows the code and returns the exception as `Raised(fault, partial)`. That
value holds the buffer as it stood at the moment of the raise. Nothing else changes:
no page is added and the accumulator is kept.

- `ZeroDivision` (line 123): there is a bleed (`bleedWidth > 0`) and the page
  width or height is 0. The raise happens after the wrapper's save and
  translation have been drawn.
- `UnboundMarks` (line 131): `markLast` is truthy but the marks were not drawn,
  because the clamped mark length is 0 or the mark colour is falsy. `L` was then
  never bound. The raise happens after the splice and the closing restore.

### Bleed geometry

The wrapper first translates by `bw - bleedW` and then scales by
`1 + 2*bleedW/side`. Under PDF's composition the scale applies inside the
translation, so a point (x, y) of the original page lands at
`(x*sx + bw - bleedW, y*sy + bw - bleedW)`. `Place` applies the wrapper's own tokens
in that order, and `BleedFillsTrimBox` proves that they send the page onto the
enlarged page's trim box, grown by the bleed on every side.

## Model

| member | source | states |
|---|---|---|
| `GeoDict.Template` | geopdf/__init__.py:42-44 | the map a run of defaults describes has exactly the defaults' keys, each with its first listed value |
| `GeoDict.DefaultList` | geopdf/__init__.py:43-44 | each class's `setdefault` calls as an ordered list of (key, default) pairs with distinct keys: none for the base class, `ProjectionType`/`Type` for `Projection` (lines 43-44), `Type`/`Version`/`Projection` for `LGIDict` (lines 53-55) |
| `GeoDict.SetDefault` | geopdf/__init__.py:43 | one `setdefault` call: the key is present afterwards, every existing entry keeps its value, and a missing key receives the default |
| `GeoDict.ApplyDefaults` | geopdf/__init__.py:52-55 | applying `setdefault` once per default, in order, gives the defaults overlaid by the caller's map: a key the caller supplied is never overwritten |
| `GeoDict.SetDefaults` | geopdf/__init__.py:24-28 | the `set_defaults` hook of each class overlays the caller's entries on the template of that class's `setdefault` calls, so only missing default keys are added |
| `GeoDict.NewDict` | geopdf/__init__.py:15-22 | construction copies the given map (empty when none is given) and then applies the defaults: the result is a dictionary of that class, keeps every given entry, and has exactly the given keys plus the default keys |
| `GeoDict.ProjectionDefaulting` | geopdf/__init__.py:42-44 | a `Projection` gains exactly `ProjectionType` and `Type`; caller entries are kept; a missing `ProjectionType` becomes the string `GEOGRAPHIC` and a missing `Type` the name `Projection` |
| `GeoDict.DefaultProjection` | geopdf/__init__.py:55 | the default projection of an `LGIDict` is the `Projection` holding `Datum` `WE`, `ProjectionType` `GEOGRAPHIC` and `Type` `Projection` |
| `GeoDict.LgiDefaulting` | geopdf/__init__.py:52-55 | an `LGIDict` gains exactly `Type`, `Version` and `Projection`; caller entries are kept; missing ones become `LGIDict`, `2.1` and the default projection |
| `GeoDict.DefaultingIdempotent` | geopdf/__init__.py:24-55 | filling in defaults a second time changes nothing, for every class |
| `GeoDict.CheckValid` | geopdf/__init__.py:57-65 | the loop over the entries returns true exactly when the dictionary is valid: an `LGIDict` needs `Registration` or `CTM` and no nested dictionary reporting invalid; any other value is valid |
| `GeoDict.IsValid` | geopdf/__init__.py:30-34 | `is_valid` of each class: a value reporting invalid is an `LGIDict`, since the base class and `Projection` always answer true (lines 30-34); a valid `LGIDict` holds `Registration` or `CTM` (lines 58-59) |
| `GeoDict.NestedValid` | geopdf/__init__.py:61-63 | the loop over the items finds no value that reports invalid exactly when every value reports valid, values without `is_valid` counting as valid |
| `GeoDict.BuildLgi` | geopdf/__init__.py:176-177 | the dictionary `addGeo` builds is an `LGIDict` |
| `GeoDict.OverridesReplaceDefaults` | geopdf/__init__.py:176-177 | after `update`, the keys are the overrides' keys plus the three default keys; every override replaces its key wholesale; default keys not overridden keep their defaults |
| `GeoDict.DefaultsValid` | geopdf/__init__.py:52-55 | a freshly defaulted `LGIDict` holds neither `Registration` nor `CTM`, and all of its nested dictionaries are valid |
| `GeoDict.MergeNestedValid` | geopdf/__init__.py:61-63 | overlaying entries onto a map whose nested dictionaries are all valid leaves every nested dictionary valid exactly when the overlaid entries' ones are |
| `GeoDict.BuildLgiValidIff` | geopdf/__init__.py:176-180 | the dictionary `addGeo` builds is valid if and only if the caller supplied `Registration` or `CTM` and every dictionary the caller supplied reports valid |
| `Finalizer.Effective` | geopdf/__init__.py:88-94 | the clamped settings (with the bleed of line 118): the border is non-negative; the mark length lies between 0 and the border; the mark gap is twice the border less the mark length, so it lies between the border and twice the border; the bleed is non-negative; in-range values pass unchanged, a negative border, mark length or bleed becomes 0, and a mark length above the border becomes the border; the defaults are 36, 18, 0.5, black, marks last and no bleed |
| `Finalizer.MarkSegments` | geopdf/__init__.py:100-109 | eight segments; under clamped settings each is an axis-parallel tick of the mark length, lying on a trim line and inside the border band of the enlarged page |
| `Finalizer.MarkSegmentsAtCorners` | geopdf/__init__.py:100-109 | under clamped settings the marks hold, at each of the four trim corners, a vertical and a horizontal tick of the mark length pointing away from the trim box |
| `Finalizer.MarkTokens` | geopdf/__init__.py:97-110 | the crop marks are one save/restore scope whose inside only sets the stroke colour and line width and draws the mark segments |
| `Finalizer.WrapperTokens` | geopdf/__init__.py:119-123 | the wrapper opens with a save followed only by transformations: the translation by `bw - bleedW`, and a scale exactly when there is bleed |
| `Finalizer.Finalize` | geopdf/__init__.py:87-135 | the outcome of finalising a page: it raises only when crop marks with a non-zero border are processed; a finished buffer is longer than the content and ends with the separator; the page grows by the same amount in both dimensions and never shrinks; a page that does not grow only gains the separator |
| `Finalizer.NoCropMarksKeepsPage` | geopdf/__init__.py:87-89 | without crop marks, or with a zero effective border, the buffer only gains the separator and the page keeps its size |
| `Finalizer.RaisesExactlyWhen` | geopdf/__init__.py:118-131 | finalisation raises if and only if crop marks are processed and either there is a bleed with a zero page side, or the marks are to be drawn last but were not drawn |
| `Finalizer.ContentKeptInOrder` | geopdf/__init__.py:125-135 | when finalisation succeeds, the buffer ends with the separator and holds the original content as one contiguous run, in its original order |
| `Finalizer.DepthAppend` | geopdf/__init__.py:97-129 | the save/restore depth of a concatenation is the sum of the parts' depths |
| `Finalizer.BalancedAppend` | geopdf/__init__.py:97-129 | concatenating two balanced runs gives a balanced run |
| `Finalizer.BalancedScope` | geopdf/__init__.py:119-129 | a save, then a balanced run, then a restore, is balanced |
| `Finalizer.MarksBalanced` | geopdf/__init__.py:97-110 | the crop-mark drawing is a balanced save/restore scope |
| `Finalizer.FinalizeKeepsBalance` | geopdf/__init__.py:95-135 | if the page's own drawing keeps saves and restores balanced, so does the finalised buffer |
| `Finalizer.BleedFillsTrimBox` | geopdf/__init__.py:118-123 | applied as PDF composes them, the transformations of the wrapper tokens send the page's corners (0, 0) and (w, h) to (bw - bleed, bw - bleed) and (w + bw + bleed, h + bw + bleed): the page covers the enlarged trim box grown by the bleed |
| `Canvas.Attach` | geopdf/__init__.py:144-148 | the page carries exactly the accumulated references, in order; a single reference is unwrapped; nothing is attached only when the accumulator is empty and an empty array is falsy |
| `Canvas.MoveTailToFront` | geopdf/__init__.py:126-128 | cutting the buffer's tail after `cx0` and inserting it at the front exchanges head and tail |
| `Canvas.GeoCanvas.constructor` | geopdf/__init__.py:68-70 | a new canvas has the given page size, crop marks and preamble, an empty buffer, an empty accumulator and no pages |
| `Canvas.GeoCanvas.Draw` | geopdf/__init__.py:97-99 | a drawing call appends exactly its own token to the buffer and changes nothing else |
| `Canvas.GeoCanvas.StartPage` | geopdf/__init__.py:72-75 | a new page starts with an empty buffer and an empty accumulator |
| `Canvas.GeoCanvas.AddGeo` | geopdf/__init__.py:170-184 | a valid dictionary is serialised, its reference is returned and appended to the accumulator; an invalid one returns nothing and leaves the accumulator unchanged |
| `Canvas.GeoCanvas.ShowPage` | geopdf/__init__.py:77-168 | on success the document gains one page: it has the finalised size, the accumulator's attachment, and a stream made of the commands before, the preamble, the finalised buffer and the commands after; the buffer and accumulator are then empty. On a raise, the buffer is the partial one and nothing else changes |
| `Canvas.GeoCanvas.BorderAndBleed` | geopdf/__init__.py:88-133 | the crop-mark branch leaves the buffer and page size `Finalize` describes, or raises with its partial buffer |
| `Canvas.GeoCanvas.DrawMarks` | geopdf/__init__.py:95-116 | `cx0` is the buffer's length before the marks; marks drawn first stay in the buffer; marks drawn last are taken back out and returned; nothing is drawn when the marks are not drawn |
| `Canvas.GeoCanvas.OpenWrapper` | geopdf/__init__.py:118-123 | the wrapper's save, translation and (with bleed) scale are appended; it raises `ZeroDivision` exactly when there is a bleed and a page side is zero, after the save and translation |

## Left out

- PDF operator text. Each drawing call is one token carrying its arguments, and what ReportLab writes for it is not modelled.
- Floating-point rounding. Lengths are Dafny reals, so the bleed scale and the enlarged sizes are exact. NaN and infinities are not modelled.
- Serialisation. `lgi.format(doc)` is modelled as `Ref(objectNumber, dict)`, with the document's object number passed in as a parameter. The document's object table is not modelled.
- Truthiness of an empty `PDFArray`. It depends on ReportLab, so it is the constant `emptyArrayTruthy`. When it is false, an empty accumulator is not attached.
- The class attribute `LGIDict` (line 70). It is one array shared by every instance until that instance's `_startPage` runs. The model's constructor starts every canvas with its own empty accumulator. Whether ReportLab's constructor calls `_startPage` is not part of this model.
- The rest of page assembly. This covers `__NoDefault__`, `Rotate`, `hasImages`, transition, compression, duration, and the `_setColorSpace`, `_setExtGState`, `_setXObjects`, `_setShadingUsed` and `_setAnnotations` calls (lines 136-140 and 150-163). A page is its size, its attachment and its stream.
- The `_onPage` callback and the page counter (lines 166-167).
- The other per-page state that ReportLab's `_startPage` resets, apart from the buffer. This covers the graphics state and its stack. ReportLab's own source is not part of this model.
- `_psCommandsBeforePage`, `_psCommandsAfterPage` and `_preamble`. They are read when the page stream is built, but the methods that fill them are not modelled.
- Python dictionary insertion order. Entries are modelled as a map, and the order affects only serialisation.
- Values that are not dictionaries of this package but still have an `is_valid` method. A value is a string, a name, a number, one of the three dictionary classes, or `Other`, which has no `is_valid`. The identity test `is False` is therefore an ordinary boolean test.
- Python truthiness of arbitrary crop-mark attributes. `markLast` is a boolean. `markColor` is a colour or `NoColor`, which stands for a falsy value. Lengths are reals.
- `geopdf/metadata.py` is not part of this model.
