/**
 * The GeoPDF metadata dictionaries: `GeoPDFBase` and its two specialisations
 * `Projection` and `LGIDict`. A dictionary maps plain key names to values;
 * building one copies the caller's map and then fills in missing default keys
 * one `setdefault` at a time. Validity is a small recursive predicate.
 */
module GeoDict {
  import opened Wrappers

  /** Which class a dictionary object is an instance of. */
  datatype Kind = Base | Projection | Lgi

  /** A value stored under a key of a dictionary. */
  datatype Value =
    | Str(text: string)                                // a PDFString
    | Name(text: string)                               // a PDFName
    | Number(x: real)
    | Dict(kind: Kind, entries: map<string, Value>)   // a GeoPDFBase instance: it has `is_valid`
    | Other(tag: string)                               // any other object, without `is_valid`

  type Entries = map<string, Value>

  /** The keys of a list of (key, default) pairs. */
  function KeysOf(ds: seq<(string, Value)>): set<string> {
    set i | 0 <= i < |ds| :: ds[i].0
  }

  predicate DistinctKeys(ds: seq<(string, Value)>) {
    forall i, j :: 0 <= i < j < |ds| ==> ds[i].0 != ds[j].0
  }

  /** The map a list of pairs with distinct keys stands for. */
  function Template(ds: seq<(string, Value)>): (t: Entries)
    requires DistinctKeys(ds)
    ensures t.Keys == KeysOf(ds)
    ensures forall i :: 0 <= i < |ds| ==> t[ds[i].0] == ds[i].1
  {
    if ds == [] then map[]
    else
      var t := Template(ds[1..]);
      assert KeysOf(ds) == KeysOf(ds[1..]) + {ds[0].0} by {
        forall k | k in KeysOf(ds) ensures k in KeysOf(ds[1..]) + {ds[0].0} {
          var i :| 0 <= i < |ds| && ds[i].0 == k;
          if i > 0 { assert ds[1..][i - 1].0 == k; }
        }
      }
      t[ds[0].0 := ds[0].1]
  }

  /** A rank that puts `Projection` below `LGIDict`, whose defaults build a Projection. */
  function Rank(kind: Kind): nat {
    match kind
    case Base => 0
    case Projection => 1
    case Lgi => 2
  }

  /**
   * The `set_defaults` hook of each class, as the list of `setdefault(key, value)`
   * calls it makes, in order. An `LGIDict`'s default `Projection` is itself built
   * by the `Projection` constructor (`DefaultProjection`).
   */
  function DefaultList(kind: Kind): (ds: seq<(string, Value)>)
    decreases Rank(kind), 0
    ensures DistinctKeys(ds)
  {
    match kind
    case Base => []
    case Projection => [("ProjectionType", Str("GEOGRAPHIC")), ("Type", Name("Projection"))]
    case Lgi => [("Type", Str("LGIDict")), ("Version", Str("2.1")),
                 ("Projection", DefaultProjection())]
  }

  /** Python's `d.setdefault(k, v)`, as its effect on the map. */
  function SetDefault(m: Entries, k: string, v: Value): (r: Entries)
    ensures r.Keys == m.Keys + {k}
    ensures m.Items <= r.Items
    ensures k !in m ==> r[k] == v
  {
    if k in m then m else m[k := v]
  }

  /**
   * A sequence of `setdefault` calls. It amounts to merging the caller's map onto
   * the template of defaults: no key the caller supplied is overwritten, and only
   * the missing default keys are added.
   */
  function ApplyDefaults(m: Entries, ds: seq<(string, Value)>): (r: Entries)
    requires DistinctKeys(ds)
    decreases |ds|
    ensures r == Template(ds) + m
  {
    if ds == [] then m
    else
      var rest := ApplyDefaults(SetDefault(m, ds[0].0, ds[0].1), ds[1..]);
      assert ds[0].0 !in KeysOf(ds[1..]);
      MergeStep(Template(ds[1..]), m, ds[0].0, ds[0].1);
      rest
  }

  /** One `setdefault` moves one key from the template side of the merge to the map side. */
  lemma MergeStep(t: Entries, m: Entries, k: string, v: Value)
    requires k !in t
    ensures t[k := v] + m == t + SetDefault(m, k, v)
  {
  }

  /** `set_defaults()` applied to the dictionary of an object of class `kind`. */
  function SetDefaults(kind: Kind, m: Entries): (r: Entries)
    decreases Rank(kind), 1
    ensures r == Template(DefaultList(kind)) + m
  {
    ApplyDefaults(m, DefaultList(kind))
  }

  /**
   * The constructor `GeoPDFBase.__init__(dict=None)` of class `kind`: start from a
   * copy of the caller's map (an empty one when none is given) and fill in defaults.
   */
  function NewDict(kind: Kind, given: Option<Entries>): (d: Value)
    decreases Rank(kind), 2
    ensures d.Dict? && d.kind == kind
    ensures forall k :: k in given.GetOr(map[]) ==> k in d.entries && d.entries[k] == given.GetOr(map[])[k]
    ensures d.entries.Keys == given.GetOr(map[]).Keys + KeysOf(DefaultList(kind))
  {
    Dict(kind, SetDefaults(kind, given.GetOr(map[])))
  }

  /**
   * `is_valid()`. `GeoPDFBase` and `Projection` always answer True. An `LGIDict`
   * needs a `Registration` or a `CTM` key, and no value that has `is_valid` may
   * answer False. Values without `is_valid` are not looked into.
   */
  predicate IsValid(v: Value)
    decreases v, 1
    ensures !IsValid(v) ==> v.Dict? && v.kind == Lgi
    ensures IsValid(v) && v.Dict? && v.kind == Lgi ==> "Registration" in v.entries || "CTM" in v.entries
  {
    match v
    case Dict(Lgi, m) =>
      && ("Registration" in m || "CTM" in m)
      && NestedValid(m)
    case _ => true
  }

  /** No value of `m` that has `is_valid` reports False. */
  predicate NestedValid(m: Entries)
    decreases Dict(Lgi, m), 0
    ensures NestedValid(m) <==> forall k :: k in m ==> IsValid(m[k])
  {
    forall k :: k in m ==> (m[k].Dict? ==> IsValid(m[k]))
  }

  /**
   * `LGIDict.is_valid` as the source runs it: the key test, then a loop over the
   * items that stops at the first nested value reporting False.
   */
  method CheckValid(v: Value) returns (ok: bool)
    ensures ok == IsValid(v)
  {
    if !(v.Dict? && v.kind == Lgi) {
      return true;
    }
    var m := v.entries;
    if !("Registration" in m || "CTM" in m) {
      return false;
    }
    var todo := m.Keys;
    while todo != {}
      invariant todo <= m.Keys
      invariant forall k :: k in m && k !in todo ==> (m[k].Dict? ==> IsValid(m[k]))
      decreases todo
    {
      var k :| k in todo;
      var x := m[k];
      if x.Dict? {
        var sub := CheckValid(x);
        if !sub {
          return false;
        }
      }
      todo := todo - {k};
    }
    return true;
  }

  /** The dictionary `addGeo(**overrides)` builds: `LGIDict()` then `dict.update(overrides)`. */
  function BuildLgi(overrides: Entries): (d: Value)
    ensures d.Dict? && d.kind == Lgi
  {
    var lgi := NewDict(Lgi, None);
    Dict(Lgi, lgi.entries + overrides)
  }

  // ---------------------------------------------------------------------------
  // Properties of defaulting
  // ---------------------------------------------------------------------------

  /** A `Projection` gains exactly the missing `ProjectionType` and `Type` keys. */
  lemma ProjectionDefaulting(m: Entries)
    ensures var r := SetDefaults(Projection, m);
      && r.Keys == m.Keys + {"ProjectionType", "Type"}
      && (forall k :: k in m ==> r[k] == m[k])
      && ("ProjectionType" !in m ==> r["ProjectionType"] == Str("GEOGRAPHIC"))
      && ("Type" !in m ==> r["Type"] == Name("Projection"))
  {
    var ds := DefaultList(Projection);
    assert ds[0].0 == "ProjectionType" && ds[1].0 == "Type";
    assert KeysOf(ds) == {"ProjectionType", "Type"};
  }

  /** The `Projection` an `LGIDict` receives by default: one built from `{'Datum': 'WE'}`. */
  function DefaultProjection(): (p: Value)
    decreases Rank(Projection), 3
    ensures p == Dict(Projection, map["Datum" := Str("WE"), "ProjectionType" := Str("GEOGRAPHIC"), "Type" := Name("Projection")])
  {
    var ds := DefaultList(Projection);
    assert ds[0].0 == "ProjectionType" && ds[1].0 == "Type";
    assert KeysOf(ds) == {"ProjectionType", "Type"};
    NewDict(Projection, Some(map["Datum" := Str("WE")]))
  }

  /** An `LGIDict` gains exactly the missing `Type`, `Version` and `Projection` keys. */
  lemma LgiDefaulting(m: Entries)
    ensures var r := SetDefaults(Lgi, m);
      && r.Keys == m.Keys + {"Type", "Version", "Projection"}
      && (forall k :: k in m ==> r[k] == m[k])
      && ("Type" !in m ==> r["Type"] == Str("LGIDict"))
      && ("Version" !in m ==> r["Version"] == Str("2.1"))
      && ("Projection" !in m ==> r["Projection"] == DefaultProjection())
  {
    LgiTemplate();
    OverlayThree(Template(DefaultList(Lgi)), m, "Type", Str("LGIDict"), "Version", Str("2.1"),
                 "Projection", DefaultProjection());
  }

  /** The defaults of an `LGIDict`, key by key. */
  lemma LgiTemplate()
    ensures var t := Template(DefaultList(Lgi));
      && t.Keys == {"Type", "Version", "Projection"}
      && t["Type"] == Str("LGIDict") && t["Version"] == Str("2.1") && t["Projection"] == DefaultProjection()
  {
    var ds := DefaultList(Lgi);
    assert ds[0].0 == "Type" && ds[1].0 == "Version" && ds[2].0 == "Projection";
    assert KeysOf(ds) == {"Type", "Version", "Projection"};
  }

  /** Overlaying `m` on a map of three defaults adds exactly the defaults `m` lacks. */
  lemma OverlayThree(t: Entries, m: Entries, k1: string, v1: Value, k2: string, v2: Value, k3: string, v3: Value)
    requires t.Keys == {k1, k2, k3} && t[k1] == v1 && t[k2] == v2 && t[k3] == v3
    ensures var r := t + m;
      && r.Keys == m.Keys + {k1, k2, k3}
      && (forall k :: k in m ==> r[k] == m[k])
      && (k1 !in m ==> r[k1] == v1)
      && (k2 !in m ==> r[k2] == v2)
      && (k3 !in m ==> r[k3] == v3)
  {
  }

  /** Filling in defaults a second time changes nothing. */
  lemma DefaultingIdempotent(kind: Kind, m: Entries)
    ensures SetDefaults(kind, SetDefaults(kind, m)) == SetDefaults(kind, m)
  {
    var t := Template(DefaultList(kind));
    assert t + (t + m) == t + m;
  }

  // ---------------------------------------------------------------------------
  // Properties of addGeo's dictionary
  // ---------------------------------------------------------------------------

  /**
   * Overrides are applied after the defaults, shallowly: every override replaces its
   * key wholesale (a `Projection` override is not merged into the default one), and
   * every default key not overridden keeps its default.
   */
  lemma OverridesReplaceDefaults(overrides: Entries)
    ensures var e := BuildLgi(overrides).entries;
      && e.Keys == overrides.Keys + {"Type", "Version", "Projection"}
      && (forall k :: k in overrides ==> e[k] == overrides[k])
      && ("Type" !in overrides ==> e["Type"] == Str("LGIDict"))
      && ("Version" !in overrides ==> e["Version"] == Str("2.1"))
      && ("Projection" !in overrides ==> e["Projection"] == DefaultProjection())
  {
    var d := NewDict(Lgi, None).entries;
    LgiDefaulting(map[]);
    assert d.Keys == {"Type", "Version", "Projection"};
    OverlayThree(d, overrides, "Type", Str("LGIDict"), "Version", Str("2.1"), "Projection", DefaultProjection());
  }

  /**
   * The dictionary `addGeo` builds is valid exactly when the caller supplied
   * `Registration` or `CTM` and no dictionary the caller supplied reports invalid.
   */
  lemma BuildLgiValidIff(overrides: Entries)
    ensures IsValid(BuildLgi(overrides)) <==>
      && ("Registration" in overrides || "CTM" in overrides)
      && NestedValid(overrides)
  {
    var d := NewDict(Lgi, None).entries;
    BuildLgiUnfold(overrides);
    DefaultsValid();
    assert ("Registration" in d + overrides || "CTM" in d + overrides)
      <==> ("Registration" in overrides || "CTM" in overrides);
    MergeNestedValid(d, overrides);
  }

  lemma BuildLgiUnfold(overrides: Entries)
    ensures var b := BuildLgi(overrides);
      && b.entries == NewDict(Lgi, None).entries + overrides
      && (IsValid(b) <==> ("Registration" in b.entries || "CTM" in b.entries) && NestedValid(b.entries))
  {
  }

  /** A defaulted `LGIDict` holds only valid values and neither `Registration` nor `CTM`. */
  lemma DefaultsValid()
    ensures var d := NewDict(Lgi, None).entries;
      "Registration" !in d && "CTM" !in d && NestedValid(d)
  {
    var d := NewDict(Lgi, None).entries;
    LgiDefaulting(map[]);
    ThreeDefaultsValid(d, DefaultProjection());
  }

  lemma ThreeDefaultsValid(d: Entries, p: Value)
    requires d.Keys == {"Type", "Version", "Projection"}
    requires d["Type"] == Str("LGIDict") && d["Version"] == Str("2.1") && d["Projection"] == p
    requires p.Dict? && p.kind == Projection
    ensures "Registration" !in d && "CTM" !in d && NestedValid(d)
  {
    forall k | k in d ensures IsValid(d[k]) {
      assert k == "Type" || k == "Version" || k == "Projection";
    }
  }

  /** Merging onto a map whose values are all valid is valid exactly when the overrides are. */
  lemma MergeNestedValid(a: Entries, b: Entries)
    requires NestedValid(a)
    ensures NestedValid(a + b) <==> NestedValid(b)
  {
    if NestedValid(a + b) {
      forall k | k in b ensures b[k].Dict? ==> IsValid(b[k]) {
        assert (a + b)[k] == b[k];
      }
    }
  }
}
