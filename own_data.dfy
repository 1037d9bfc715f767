/**
 * toFile_MeOnly and fromFile_MeOnly: the display properties a ccHObject stores
 * for its ccDrawableObject part, one field after the other. A `bool` is one
 * byte, the temporary colour three bytes (one per component) and the GL
 * transformation the 64-byte image of its sixteen floats; the colour is stored
 * only when it overrides the object's colours, the transformation only when it
 * is enabled, and the `showNameIn3D` byte only from data version 24 on.
 */
module OwnData {
  import opened Wrappers
  import opened Streams

  type Color = s: seq<Byte> | |s| == 3 witness [0, 0, 0]

  type Matrix = s: seq<Byte> | |s| == 64 witness seq(64, _ => 0)

  /** The first data version whose files store `showNameIn3D`. */
  const NameVersion: int := 24

  /** The display properties of the ccDrawableObject part. */
  datatype Display = Display(
    visible: bool,
    lockedVisibility: bool,
    colorsDisplayed: bool,
    normalsDisplayed: bool,
    sfDisplayed: bool,
    colorIsOverriden: bool,
    tempColor: Color,
    glTransEnabled: bool,
    glTrans: Matrix,
    showNameIn3D: bool)

  /** The `bool` fields, in the order the file holds them. */
  datatype Flag = Visible | LockedVisibility | ColorsDisplayed | NormalsDisplayed
                | SfDisplayed | ColorIsOverriden | GlTransEnabled | ShowNameIn3D

  function Get(d: Display, f: Flag): bool {
    match f
    case Visible => d.visible
    case LockedVisibility => d.lockedVisibility
    case ColorsDisplayed => d.colorsDisplayed
    case NormalsDisplayed => d.normalsDisplayed
    case SfDisplayed => d.sfDisplayed
    case ColorIsOverriden => d.colorIsOverriden
    case GlTransEnabled => d.glTransEnabled
    case ShowNameIn3D => d.showNameIn3D
  }

  function Set(d: Display, f: Flag, b: bool): (r: Display)
    ensures Get(r, f) == b
  {
    match f
    case Visible => d.(visible := b)
    case LockedVisibility => d.(lockedVisibility := b)
    case ColorsDisplayed => d.(colorsDisplayed := b)
    case NormalsDisplayed => d.(normalsDisplayed := b)
    case SfDisplayed => d.(sfDisplayed := b)
    case ColorIsOverriden => d.(colorIsOverriden := b)
    case GlTransEnabled => d.(glTransEnabled := b)
    case ShowNameIn3D => d.(showNameIn3D := b)
  }

  /** The bytes a file of data version `version` holds for `x`, in the order
      toFile_MeOnly writes them; toFile_MeOnly itself writes the layout of version
      `NameVersion` and later. */
  function EncodeMeOnly(x: Display, version: int): seq<Byte> {
    VisibilityBytes(x) + DisplayedBytes(x) + ColorBytes(x) + TransBytes(x) + NameBytes(x, version)
  }

  function VisibilityBytes(x: Display): seq<Byte> {
    [BoolByte(x.visible), BoolByte(x.lockedVisibility)]
  }

  function DisplayedBytes(x: Display): seq<Byte> {
    [BoolByte(x.colorsDisplayed), BoolByte(x.normalsDisplayed), BoolByte(x.sfDisplayed)]
  }

  function ColorBytes(x: Display): seq<Byte> {
    [BoolByte(x.colorIsOverriden)] + (if x.colorIsOverriden then x.tempColor else [])
  }

  function TransBytes(x: Display): seq<Byte> {
    [BoolByte(x.glTransEnabled)] + (if x.glTransEnabled then x.glTrans else [])
  }

  function NameBytes(x: Display, version: int): seq<Byte> {
    if version >= NameVersion then [BoolByte(x.showNameIn3D)] else []
  }

  /** `read(&flag, 1)` into the field `f`. */
  function ReadFlag(mode: ReadMode, s: seq<Byte>, d: Display, f: Flag): (r: Option<(Display, seq<Byte>)>)
    ensures r.Some? ==> |r.value.1| <= |s|
    ensures r.None? ==> mode == Checked
  {
    var a :- ReadBool(mode, s, Get(d, f));
    Some((Set(d, f, a.0), a.1))
  }

  /** Reading `visible` and `lockedVisibility`. */
  function ReadVisibility(mode: ReadMode, s: seq<Byte>, d: Display): (r: Option<(Display, seq<Byte>)>)
    ensures r.Some? ==> |r.value.1| <= |s|
    ensures r.None? ==> mode == Checked
  {
    var a :- ReadFlag(mode, s, d, Visible);
    ReadFlag(mode, a.1, a.0, LockedVisibility)
  }

  /** Reading `colorsDisplayed`, `normalsDisplayed` and `sfDisplayed`. */
  function ReadDisplayed(mode: ReadMode, s: seq<Byte>, d: Display): (r: Option<(Display, seq<Byte>)>)
    ensures r.Some? ==> |r.value.1| <= |s|
    ensures r.None? ==> mode == Checked
  {
    var a :- ReadFlag(mode, s, d, ColorsDisplayed);
    var b :- ReadFlag(mode, a.1, a.0, NormalsDisplayed);
    ReadFlag(mode, b.1, b.0, SfDisplayed)
  }

  /** Reading `colorIsOverriden`, then `read(m_tempColor, 3)` when it is set. */
  function ReadColorState(mode: ReadMode, s: seq<Byte>, d: Display): (r: Option<(Display, seq<Byte>)>)
    ensures r.Some? ==> |r.value.1| <= |s|
    ensures r.None? ==> mode == Checked
  {
    var a :- ReadFlag(mode, s, d, ColorIsOverriden);
    if a.0.colorIsOverriden then ReadColor(mode, a.1, a.0) else Some(a)
  }

  /** `read(m_tempColor, 3)`. */
  function ReadColor(mode: ReadMode, s: seq<Byte>, d: Display): (r: Option<(Display, seq<Byte>)>)
    ensures r.Some? ==> |r.value.1| <= |s|
    ensures r.None? ==> mode == Checked
  {
    var f :- ReadField(mode, s, d.tempColor);
    Some((d.(tempColor := f.0), f.1))
  }

  /** Reading `glTransEnabled`, then the matrix when it is set. */
  function ReadTransState(mode: ReadMode, s: seq<Byte>, d: Display): (r: Option<(Display, seq<Byte>)>)
    ensures r.Some? ==> |r.value.1| <= |s|
    ensures r.None? ==> mode == Checked
  {
    var a :- ReadFlag(mode, s, d, GlTransEnabled);
    if a.0.glTransEnabled then ReadMatrix(mode, a.1, a.0) else Some(a)
  }

  /** `m_glTrans.fromFile(in, …)`, taken to read the 64-byte image with the same
      read-and-check pattern as the other fields. */
  function ReadMatrix(mode: ReadMode, s: seq<Byte>, d: Display): (r: Option<(Display, seq<Byte>)>)
    ensures r.Some? ==> |r.value.1| <= |s|
    ensures r.None? ==> mode == Checked
  {
    var f :- ReadField(mode, s, d.glTrans);
    Some((d.(glTrans := f.0), f.1))
  }

  /** Reading `showNameIn3D` from version 24 on; older files turn it off. */
  function ReadNameState(mode: ReadMode, s: seq<Byte>, version: int, d: Display): (r: Option<(Display, seq<Byte>)>)
    ensures r.Some? ==> |r.value.1| <= |s|
    ensures r.Some? && version < NameVersion ==> r.value == (d.(showNameIn3D := false), s)
    ensures r.None? ==> mode == Checked
  {
    if version >= NameVersion then ReadFlag(mode, s, d, ShowNameIn3D)
    else Some((d.(showNameIn3D := false), s))
  }

  /** fromFile_MeOnly on the unread bytes `s` of a file of data version `version`,
      on an object whose display properties are `prev`: the new properties and the
      bytes left, or None for a read error. As written (`AsWritten`) it never
      reports an error. */
  function DecodeMeOnly(mode: ReadMode, s: seq<Byte>, version: int, prev: Display): (r: Option<(Display, seq<Byte>)>)
    ensures r.Some? ==> |r.value.1| <= |s|
    ensures r.Some? && version < NameVersion ==> !r.value.0.showNameIn3D
    ensures r.None? ==> mode == Checked
  {
    var a :- ReadVisibility(mode, s, prev);
    var b :- ReadDisplayed(mode, a.1, a.0);
    var c :- ReadColorState(mode, b.1, b.0);
    var g :- ReadTransState(mode, c.1, c.0);
    ReadNameState(mode, g.1, version, g.0)
  }

  /** What reading back `x` from a file of data version `version` gives on an
      object whose properties were `prev`: every stored field comes back, a colour
      or matrix that was not stored keeps its previous value, and a file older than
      version 24 turns the name display off. */
  function Restored(x: Display, version: int, prev: Display): Display {
    x.(tempColor := if x.colorIsOverriden then x.tempColor else prev.tempColor,
       glTrans := if x.glTransEnabled then x.glTrans else prev.glTrans,
       showNameIn3D := version >= NameVersion && x.showNameIn3D)
  }

  /** Restoring what was just written changes nothing, from version 24 on. */
  lemma RestoredCurrent(x: Display, version: int, prev: Display)
    requires version >= NameVersion
    requires x.colorIsOverriden || x.tempColor == prev.tempColor
    requires x.glTransEnabled || x.glTrans == prev.glTrans
    ensures Restored(x, version, prev) == x
  {
  }

  /** Reading back a record in the layout of data version `version` restores the
      properties and leaves the bytes that follow; in either mode. toFile_MeOnly
      itself writes only the version-24 layout; the older layouts are those that
      earlier writers produced. */
  lemma MeOnlyRoundTrip(mode: ReadMode, x: Display, version: int, t: seq<Byte>, prev: Display)
    ensures DecodeMeOnly(mode, EncodeMeOnly(x, version) + t, version, prev) == Some((Restored(x, version, prev), t))
  {
    var t4 := NameBytes(x, version) + t;
    var t3 := TransBytes(x) + t4;
    var t2 := ColorBytes(x) + t3;
    var t1 := DisplayedBytes(x) + t2;
    EncodeSplit(x, version, t);
    VisibilityFull(mode, x, t1, prev);
    var d1 := prev.(visible := x.visible, lockedVisibility := x.lockedVisibility);
    DisplayedFull(mode, x, t2, d1);
    var d2 := d1.(colorsDisplayed := x.colorsDisplayed, normalsDisplayed := x.normalsDisplayed, sfDisplayed := x.sfDisplayed);
    ColorFull(mode, x, t3, d2);
    var d3 := d2.(colorIsOverriden := x.colorIsOverriden, tempColor := if x.colorIsOverriden then x.tempColor else d2.tempColor);
    TransFull(mode, x, t4, d3);
    var d4 := d3.(glTransEnabled := x.glTransEnabled, glTrans := if x.glTransEnabled then x.glTrans else d3.glTrans);
    NameFull(mode, x, version, t, d4);
  }

  /** The record followed by `t`, group after group. */
  lemma EncodeSplit(x: Display, version: int, t: seq<Byte>)
    ensures EncodeMeOnly(x, version) + t
      == VisibilityBytes(x) + (DisplayedBytes(x) + (ColorBytes(x) + (TransBytes(x) + (NameBytes(x, version) + t))))
  {
    var v, d, c, g, n := VisibilityBytes(x), DisplayedBytes(x), ColorBytes(x), TransBytes(x), NameBytes(x, version);
    calc {
      EncodeMeOnly(x, version) + t;
      (v + d + c + g + n) + t;
      { assert (v + d + c + g + n) + t == (v + d + c + g) + (n + t); }
      (v + d + c + g) + (n + t);
      { assert (v + d + c + g) + (n + t) == (v + d + c) + (g + (n + t)); }
      (v + d + c) + (g + (n + t));
      { assert (v + d + c) + (g + (n + t)) == (v + d) + (c + (g + (n + t))); }
      (v + d) + (c + (g + (n + t)));
      { assert (v + d) + (c + (g + (n + t))) == v + (d + (c + (g + (n + t)))); }
      v + (d + (c + (g + (n + t))));
    }
  }

  /** A stored flag reads back into its field. */
  lemma FlagFull(mode: ReadMode, b: bool, t: seq<Byte>, d: Display, f: Flag)
    ensures ReadFlag(mode, [BoolByte(b)] + t, d, f) == Some((Set(d, f, b), t))
  {
    ReadBoolFull(mode, b, t, Get(d, f));
  }

  lemma VisibilityFull(mode: ReadMode, x: Display, t: seq<Byte>, d: Display)
    ensures ReadVisibility(mode, VisibilityBytes(x) + t, d)
      == Some((d.(visible := x.visible, lockedVisibility := x.lockedVisibility), t))
  {
    assert VisibilityBytes(x) + t == [BoolByte(x.visible)] + ([BoolByte(x.lockedVisibility)] + t);
    FlagFull(mode, x.visible, [BoolByte(x.lockedVisibility)] + t, d, Visible);
    FlagFull(mode, x.lockedVisibility, t, Set(d, Visible, x.visible), LockedVisibility);
  }

  lemma DisplayedFull(mode: ReadMode, x: Display, t: seq<Byte>, d: Display)
    ensures ReadDisplayed(mode, DisplayedBytes(x) + t, d)
      == Some((d.(colorsDisplayed := x.colorsDisplayed, normalsDisplayed := x.normalsDisplayed, sfDisplayed := x.sfDisplayed), t))
  {
    var t2 := [BoolByte(x.sfDisplayed)] + t;
    var t1 := [BoolByte(x.normalsDisplayed)] + t2;
    assert DisplayedBytes(x) + t == [BoolByte(x.colorsDisplayed)] + t1;
    var d1 := Set(d, ColorsDisplayed, x.colorsDisplayed);
    var d2 := Set(d1, NormalsDisplayed, x.normalsDisplayed);
    FlagFull(mode, x.colorsDisplayed, t1, d, ColorsDisplayed);
    FlagFull(mode, x.normalsDisplayed, t2, d1, NormalsDisplayed);
    FlagFull(mode, x.sfDisplayed, t, d2, SfDisplayed);
  }

  lemma ColorFull(mode: ReadMode, x: Display, t: seq<Byte>, d: Display)
    ensures ReadColorState(mode, ColorBytes(x) + t, d)
      == Some((d.(colorIsOverriden := x.colorIsOverriden, tempColor := if x.colorIsOverriden then x.tempColor else d.tempColor), t))
  {
    var t1 := (if x.colorIsOverriden then x.tempColor else []) + t;
    assert ColorBytes(x) + t == [BoolByte(x.colorIsOverriden)] + t1;
    FlagFull(mode, x.colorIsOverriden, t1, d, ColorIsOverriden);
    if x.colorIsOverriden {
      ReadFieldFull(mode, x.tempColor, t, d.tempColor);
    }
  }

  lemma TransFull(mode: ReadMode, x: Display, t: seq<Byte>, d: Display)
    ensures ReadTransState(mode, TransBytes(x) + t, d)
      == Some((d.(glTransEnabled := x.glTransEnabled, glTrans := if x.glTransEnabled then x.glTrans else d.glTrans), t))
  {
    var t1 := (if x.glTransEnabled then x.glTrans else []) + t;
    assert TransBytes(x) + t == [BoolByte(x.glTransEnabled)] + t1;
    FlagFull(mode, x.glTransEnabled, t1, d, GlTransEnabled);
    if x.glTransEnabled {
      ReadFieldFull(mode, x.glTrans, t, d.glTrans);
    }
  }

  lemma NameFull(mode: ReadMode, x: Display, version: int, t: seq<Byte>, d: Display)
    ensures ReadNameState(mode, NameBytes(x, version) + t, version, d)
      == Some((d.(showNameIn3D := version >= NameVersion && x.showNameIn3D), t))
  {
    if version >= NameVersion {
      FlagFull(mode, x.showNameIn3D, t, d, ShowNameIn3D);
    } else {
      assert NameBytes(x, version) + t == t;
    }
  }

  /** The colour is part of the file exactly when it overrides the object's
      colours: changing it changes the bytes iff it is overridden. */
  lemma ColorStoredIff(x: Display, c: Color, version: int)
    ensures EncodeMeOnly(x.(tempColor := c), version) == EncodeMeOnly(x, version)
      <==> !x.colorIsOverriden || c == x.tempColor
  {
    if x.colorIsOverriden && EncodeMeOnly(x.(tempColor := c), version) == EncodeMeOnly(x, version) {
      assert EncodeMeOnly(x, version)[6..9] == x.tempColor;
      assert EncodeMeOnly(x.(tempColor := c), version)[6..9] == c;
    }
  }

  /** The GL transformation is part of the file exactly when it is enabled. */
  lemma MatrixStoredIff(x: Display, m: Matrix, version: int)
    ensures EncodeMeOnly(x.(glTrans := m), version) == EncodeMeOnly(x, version)
      <==> !x.glTransEnabled || m == x.glTrans
  {
    var y := x.(glTrans := m);
    if x.glTransEnabled && EncodeMeOnly(y, version) == EncodeMeOnly(x, version) {
      MatrixAt(x, version);
      MatrixAt(y, version);
    }
  }

  /** Where the matrix lies in the record. */
  lemma MatrixAt(x: Display, version: int)
    requires x.glTransEnabled
    ensures var k := if x.colorIsOverriden then 9 else 6;
      EncodeMeOnly(x, version)[k + 1..k + 65] == x.glTrans
  {
    var p := VisibilityBytes(x) + DisplayedBytes(x) + ColorBytes(x);
    var k := |p|;
    assert EncodeMeOnly(x, version) == p + TransBytes(x) + NameBytes(x, version);
    assert TransBytes(x)[1..65] == x.glTrans;
  }

  /** The size of the record: seven flag bytes, the colour and the matrix when
      stored, and the name flag from version 24 on. */
  lemma MeOnlySize(x: Display, version: int)
    ensures |EncodeMeOnly(x, version)| ==
      7 + (if x.colorIsOverriden then 3 else 0) + (if x.glTransEnabled then 64 else 0)
        + (if version >= NameVersion then 1 else 0)
  {
  }

  /** As written, fromFile_MeOnly reports success on any stream, even one that
      ends before the record: the empty stream leaves every property as it was
      (apart from the name display of an old file). */
  lemma EmptyStreamAccepted(version: int, prev: Display)
    ensures DecodeMeOnly(AsWritten, [], version, prev) == Some((Restored(prev, version, prev), []))
  {
    var e: seq<Byte> := [];
    VisibilityAtEnd(prev);
    DisplayedAtEnd(prev);
    ColorAtEnd(prev);
    TransAtEnd(prev);
    FlagAtEnd(prev, ShowNameIn3D);
    assert ReadNameState(AsWritten, e, version, prev) == Some((Restored(prev, version, prev), e));
  }

  /** At the end of the data, the as-written read of a flag keeps it. */
  lemma FlagAtEnd(d: Display, f: Flag)
    ensures ReadFlag(AsWritten, [], d, f) == Some((d, []))
  {
    SetGet(d, f);
    BoolAtEnd(Get(d, f));
  }

  /** Writing a field's own value back changes nothing. */
  lemma SetGet(d: Display, f: Flag)
    ensures Set(d, f, Get(d, f)) == d
  {
  }

  lemma BoolAtEnd(cur: bool)
    ensures ReadBool(AsWritten, [], cur) == Some((cur, []))
  {
  }

  lemma VisibilityAtEnd(d: Display)
    ensures ReadVisibility(AsWritten, [], d) == Some((d, []))
  {
    FlagAtEnd(d, Visible);
    FlagAtEnd(d, LockedVisibility);
  }

  lemma DisplayedAtEnd(d: Display)
    ensures ReadDisplayed(AsWritten, [], d) == Some((d, []))
  {
    FlagAtEnd(d, ColorsDisplayed);
    FlagAtEnd(d, NormalsDisplayed);
    FlagAtEnd(d, SfDisplayed);
  }

  lemma ColorAtEnd(d: Display)
    ensures ReadColorState(AsWritten, [], d) == Some((d, []))
  {
    FlagAtEnd(d, ColorIsOverriden);
    ReadFieldAtEnd(d.tempColor);
  }

  lemma TransAtEnd(d: Display)
    ensures ReadTransState(AsWritten, [], d) == Some((d, []))
  {
    FlagAtEnd(d, GlTransEnabled);
    ReadFieldAtEnd(d.glTrans);
  }

  /** With every read checked, a read that succeeds on `s` succeeds the same way
      when more bytes follow. */
  lemma CheckedExtends(s: seq<Byte>, t: seq<Byte>, version: int, prev: Display)
    requires DecodeMeOnly(Checked, s, version, prev).Some?
    ensures var r := DecodeMeOnly(Checked, s, version, prev).value;
      DecodeMeOnly(Checked, s + t, version, prev) == Some((r.0, r.1 + t))
  {
    var a := ReadVisibility(Checked, s, prev).value;
    VisibilityExtends(s, t, prev);
    var b := ReadDisplayed(Checked, a.1, a.0).value;
    DisplayedExtends(a.1, t, a.0);
    var c := ReadColorState(Checked, b.1, b.0).value;
    ColorExtends(b.1, t, b.0);
    var g := ReadTransState(Checked, c.1, c.0).value;
    TransExtends(c.1, t, c.0);
    if version >= NameVersion {
      FlagExtends(g.1, t, g.0, ShowNameIn3D);
    }
  }

  lemma FlagExtends(s: seq<Byte>, t: seq<Byte>, d: Display, f: Flag)
    ensures ReadFlag(Checked, s, d, f).Some? ==>
      ReadFlag(Checked, s + t, d, f) == Some((ReadFlag(Checked, s, d, f).value.0, ReadFlag(Checked, s, d, f).value.1 + t))
  {
    BoolExtends(s, t);
  }

  lemma VisibilityExtends(s: seq<Byte>, t: seq<Byte>, d: Display)
    requires ReadVisibility(Checked, s, d).Some?
    ensures ReadVisibility(Checked, s + t, d)
      == Some((ReadVisibility(Checked, s, d).value.0, ReadVisibility(Checked, s, d).value.1 + t))
  {
    var a := ReadFlag(Checked, s, d, Visible).value;
    FlagExtends(s, t, d, Visible);
    FlagExtends(a.1, t, a.0, LockedVisibility);
  }

  lemma DisplayedExtends(s: seq<Byte>, t: seq<Byte>, d: Display)
    requires ReadDisplayed(Checked, s, d).Some?
    ensures ReadDisplayed(Checked, s + t, d)
      == Some((ReadDisplayed(Checked, s, d).value.0, ReadDisplayed(Checked, s, d).value.1 + t))
  {
    var a := ReadFlag(Checked, s, d, ColorsDisplayed).value;
    FlagExtends(s, t, d, ColorsDisplayed);
    var b := ReadFlag(Checked, a.1, a.0, NormalsDisplayed).value;
    FlagExtends(a.1, t, a.0, NormalsDisplayed);
    FlagExtends(b.1, t, b.0, SfDisplayed);
  }

  lemma ColorExtends(s: seq<Byte>, t: seq<Byte>, d: Display)
    requires ReadColorState(Checked, s, d).Some?
    ensures ReadColorState(Checked, s + t, d)
      == Some((ReadColorState(Checked, s, d).value.0, ReadColorState(Checked, s, d).value.1 + t))
  {
    var a := ReadFlag(Checked, s, d, ColorIsOverriden).value;
    FlagExtends(s, t, d, ColorIsOverriden);
    FieldExtends(a.1, t, a.0.tempColor);
  }

  lemma TransExtends(s: seq<Byte>, t: seq<Byte>, d: Display)
    requires ReadTransState(Checked, s, d).Some?
    ensures ReadTransState(Checked, s + t, d)
      == Some((ReadTransState(Checked, s, d).value.0, ReadTransState(Checked, s, d).value.1 + t))
  {
    var a := ReadFlag(Checked, s, d, GlTransEnabled).value;
    FlagExtends(s, t, d, GlTransEnabled);
    FieldExtends(a.1, t, a.0.glTrans);
  }

  /** A checked `bool` read that succeeds does not look past its byte. */
  lemma BoolExtends(s: seq<Byte>, t: seq<Byte>)
    ensures forall cur :: ReadBool(Checked, s, cur).Some? ==>
      ReadBool(Checked, s + t, cur) == Some((ReadBool(Checked, s, cur).value.0, ReadBool(Checked, s, cur).value.1 + t))
  {
    if |s| > 0 {
      assert (s + t)[0] == s[0];
      assert (s + t)[1..] == s[1..] + t;
    }
  }

  /** A checked field read that succeeds does not look past its bytes. */
  lemma FieldExtends(s: seq<Byte>, t: seq<Byte>, cur: seq<Byte>)
    ensures ReadField(Checked, s, cur).Some? ==>
      ReadField(Checked, s + t, cur) == Some((ReadField(Checked, s, cur).value.0, ReadField(Checked, s, cur).value.1 + t))
  {
    if |s| >= |cur| {
      assert (s + t)[..|cur|] == s[..|cur|];
      assert (s + t)[|cur|..] == s[|cur|..] + t;
    }
  }

  /** With every read checked, fromFile_MeOnly fails on a stream that ends before
      the record does. */
  lemma CheckedRejectsTruncated(x: Display, version: int, k: nat, prev: Display)
    requires k < |EncodeMeOnly(x, version)|
    ensures DecodeMeOnly(Checked, EncodeMeOnly(x, version)[..k], version, prev) == None
  {
    var e := EncodeMeOnly(x, version);
    var p, q := e[..k], e[k..];
    assert p + q == e;
    assert e + [] == e;
    MeOnlyRoundTrip(Checked, x, version, [], prev);
    if DecodeMeOnly(Checked, p, version, prev).Some? {
      CheckedExtends(p, q, version, prev);
      assert false;
    }
  }

  /** The display fields of one object, which fromFile_MeOnly overwrites one
      after the other. */
  class DrawableState {
    var visible: bool
    var lockedVisibility: bool
    var colorsDisplayed: bool
    var normalsDisplayed: bool
    var sfDisplayed: bool
    var colorIsOverriden: bool
    var tempColor: Color
    var glTransEnabled: bool
    var glTrans: Matrix
    var showNameIn3D: bool

    /** The fields as a value. */
    function Model(): Display
      reads this
    {
      Display(visible, lockedVisibility, colorsDisplayed, normalsDisplayed, sfDisplayed,
        colorIsOverriden, tempColor, glTransEnabled, glTrans, showNameIn3D)
    }

    constructor (d: Display)
      ensures Model() == d
    {
      visible, lockedVisibility := d.visible, d.lockedVisibility;
      colorsDisplayed, normalsDisplayed, sfDisplayed := d.colorsDisplayed, d.normalsDisplayed, d.sfDisplayed;
      colorIsOverriden, tempColor := d.colorIsOverriden, d.tempColor;
      glTransEnabled, glTrans := d.glTransEnabled, d.glTrans;
      showNameIn3D := d.showNameIn3D;
    }

    /** toFile_MeOnly: appends the record in the current layout. */
    method ToFileMeOnly(out: OutStream)
      modifies out
      ensures out.data == old(out.data) + EncodeMeOnly(Model(), NameVersion)
    {
      ghost var start := out.data;
      WriteVisibility(out);
      WriteDisplayed(out);
      WriteColor(out);
      WriteTrans(out);
      out.Write([BoolByte(showNameIn3D)]);
      ghost var x := Model();
      assert out.data == start + VisibilityBytes(x) + DisplayedBytes(x) + ColorBytes(x) + TransBytes(x) + NameBytes(x, NameVersion);
    }

    method WriteVisibility(out: OutStream)
      modifies out
      ensures out.data == old(out.data) + VisibilityBytes(Model())
    {
      out.Write([BoolByte(visible)]);
      out.Write([BoolByte(lockedVisibility)]);
    }

    method WriteDisplayed(out: OutStream)
      modifies out
      ensures out.data == old(out.data) + DisplayedBytes(Model())
    {
      out.Write([BoolByte(colorsDisplayed)]);
      out.Write([BoolByte(normalsDisplayed)]);
      out.Write([BoolByte(sfDisplayed)]);
    }

    method WriteColor(out: OutStream)
      modifies out
      ensures out.data == old(out.data) + ColorBytes(Model())
    {
      out.Write([BoolByte(colorIsOverriden)]);
      if colorIsOverriden {
        out.Write(tempColor);
      }
    }

    method WriteTrans(out: OutStream)
      modifies out
      ensures out.data == old(out.data) + TransBytes(Model())
    {
      out.Write([BoolByte(glTransEnabled)]);
      if glTransEnabled {
        out.Write(glTrans);
      }
    }

    /** fromFile_MeOnly on a file of data version `version`: true and the new
        fields, with the bytes read consumed, exactly when DecodeMeOnly succeeds. */
    method FromFileMeOnly(input: InStream, version: int, mode: ReadMode) returns (ok: bool)
      requires input.Valid()
      modifies this, input
      ensures input.Valid() && input.data == old(input.data)
      ensures var r := DecodeMeOnly(mode, old(input.Rest()), version, old(Model()));
        && (ok <==> r.Some?)
        && (ok ==> Model() == r.value.0 && input.Rest() == r.value.1)
    {
      ok := ReadVisibilityInto(input, mode);
      if !ok {
        return;
      }
      ok := ReadDisplayedInto(input, mode);
      if !ok {
        return;
      }
      ok := ReadColorStateInto(input, mode);
      if !ok {
        return;
      }
      ok := ReadTransStateInto(input, mode);
      if !ok {
        return;
      }
      ok := ReadNameStateInto(input, version, mode);
    }

    method ReadVisibilityInto(input: InStream, mode: ReadMode) returns (ok: bool)
      requires input.Valid()
      modifies this, input
      ensures input.Valid() && input.data == old(input.data)
      ensures var r := ReadVisibility(mode, old(input.Rest()), old(Model()));
        && (ok <==> r.Some?)
        && (ok ==> Model() == r.value.0 && input.Rest() == r.value.1)
    {
      ok := ReadFlagInto(input, mode, Visible);
      if !ok {
        return;
      }
      ok := ReadFlagInto(input, mode, LockedVisibility);
    }

    method ReadColorStateInto(input: InStream, mode: ReadMode) returns (ok: bool)
      requires input.Valid()
      modifies this, input
      ensures input.Valid() && input.data == old(input.data)
      ensures var r := ReadColorState(mode, old(input.Rest()), old(Model()));
        && (ok <==> r.Some?)
        && (ok ==> Model() == r.value.0 && input.Rest() == r.value.1)
    {
      ok := ReadFlagInto(input, mode, ColorIsOverriden);
      if ok && colorIsOverriden {
        ok := ReadColorInto(input, mode);
      }
    }

    method ReadTransStateInto(input: InStream, mode: ReadMode) returns (ok: bool)
      requires input.Valid()
      modifies this, input
      ensures input.Valid() && input.data == old(input.data)
      ensures var r := ReadTransState(mode, old(input.Rest()), old(Model()));
        && (ok <==> r.Some?)
        && (ok ==> Model() == r.value.0 && input.Rest() == r.value.1)
    {
      ok := ReadFlagInto(input, mode, GlTransEnabled);
      if ok && glTransEnabled {
        ok := ReadMatrixInto(input, mode);
      }
    }

    method ReadNameStateInto(input: InStream, version: int, mode: ReadMode) returns (ok: bool)
      requires input.Valid()
      modifies this, input
      ensures input.Valid() && input.data == old(input.data)
      ensures var r := ReadNameState(mode, old(input.Rest()), version, old(Model()));
        && (ok <==> r.Some?)
        && (ok ==> Model() == r.value.0 && input.Rest() == r.value.1)
    {
      if version >= NameVersion {
        ok := ReadFlagInto(input, mode, ShowNameIn3D);
      } else {
        showNameIn3D := false;
        ok := true;
      }
    }

    /** `read(&flag, 1)` into the field `f`. */
    method ReadFlagInto(input: InStream, mode: ReadMode, f: Flag) returns (ok: bool)
      requires input.Valid()
      modifies this, input
      ensures input.Valid() && input.data == old(input.data)
      ensures var r := ReadFlag(mode, old(input.Rest()), old(Model()), f);
        && (ok <==> r.Some?)
        && (ok ==> Model() == r.value.0 && input.Rest() == r.value.1)
    {
      var b;
      ok, b := ReadBoolInto(input, mode, Get(Model(), f));
      if !ok {
        return;
      }
      SetFlag(f, b);
    }

    /** Stores `b` in the field `f`. */
    method SetFlag(f: Flag, b: bool)
      modifies this
      ensures Model() == Set(old(Model()), f, b)
    {
      if f.Visible? || f.LockedVisibility? || f.ColorsDisplayed? || f.NormalsDisplayed? {
        SetVisibilityFlag(f, b);
      } else {
        SetOtherFlag(f, b);
      }
    }

    method SetVisibilityFlag(f: Flag, b: bool)
      requires f.Visible? || f.LockedVisibility? || f.ColorsDisplayed? || f.NormalsDisplayed?
      modifies this
      ensures Model() == Set(old(Model()), f, b)
    {
      match f
      case Visible => visible := b;
      case LockedVisibility => lockedVisibility := b;
      case ColorsDisplayed => colorsDisplayed := b;
      case NormalsDisplayed => normalsDisplayed := b;
    }

    method SetOtherFlag(f: Flag, b: bool)
      requires !(f.Visible? || f.LockedVisibility? || f.ColorsDisplayed? || f.NormalsDisplayed?)
      modifies this
      ensures Model() == Set(old(Model()), f, b)
    {
      match f
      case SfDisplayed => sfDisplayed := b;
      case ColorIsOverriden => colorIsOverriden := b;
      case GlTransEnabled => glTransEnabled := b;
      case ShowNameIn3D => showNameIn3D := b;
    }

    method ReadDisplayedInto(input: InStream, mode: ReadMode) returns (ok: bool)
      requires input.Valid()
      modifies this, input
      ensures input.Valid() && input.data == old(input.data)
      ensures var r := ReadDisplayed(mode, old(input.Rest()), old(Model()));
        && (ok <==> r.Some?)
        && (ok ==> Model() == r.value.0 && input.Rest() == r.value.1)
    {
      ok := ReadFlagInto(input, mode, ColorsDisplayed);
      if !ok {
        return;
      }
      ok := ReadFlagInto(input, mode, NormalsDisplayed);
      if !ok {
        return;
      }
      ok := ReadFlagInto(input, mode, SfDisplayed);
    }

    /** `read(m_tempColor, 3)`. */
    method ReadColorInto(input: InStream, mode: ReadMode) returns (ok: bool)
      requires input.Valid()
      modifies this, input
      ensures input.Valid() && input.data == old(input.data)
      ensures var r := ReadColor(mode, old(input.Rest()), old(Model()));
        && (ok <==> r.Some?)
        && (ok ==> Model() == r.value.0 && input.Rest() == r.value.1)
    {
      var c;
      ok, c := ReadInto(input, mode, tempColor);
      if !ok {
        return;
      }
      tempColor := c;
    }

    /** `m_glTrans.fromFile(in, …)`. */
    method ReadMatrixInto(input: InStream, mode: ReadMode) returns (ok: bool)
      requires input.Valid()
      modifies this, input
      ensures input.Valid() && input.data == old(input.data)
      ensures var r := ReadMatrix(mode, old(input.Rest()), old(Model()));
        && (ok <==> r.Some?)
        && (ok ==> Model() == r.value.0 && input.Rest() == r.value.1)
    {
      var m;
      ok, m := ReadInto(input, mode, glTrans);
      if !ok {
        return;
      }
      glTrans := m;
    }
  }
}
