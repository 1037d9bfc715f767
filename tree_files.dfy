/**
 * toFile and fromFile: an object is stored as its ccObject header, its own
 * display record, the number of its serializable children as a 32-bit count,
 * each of those children in turn, and the selection behaviour. Only objects whose
 * class is the plain hierarchy object are serializable here. The ccObject header
 * is modelled as the 32-bit class ID followed by a length-prefixed block of
 * bytes; the class ID of an object is read by whoever reads the object (the
 * caller, or the loop over the children), the rest of the header by the object.
 */
module TreeFiles {
  import opened Wrappers
  import opened Streams
  import opened OwnData

  type ClassID = n: nat | n < Two32

  type Word = s: seq<Byte> | |s| == 4 witness [0, 0, 0, 0]

  type Blob = s: seq<Byte> | |s| < Two32

  /** CC_TYPES::OBJECT, the class ID that marks a read failure. */
  const ObjectClass: ClassID := 0

  /** CC_TYPES::HIERARCHY_OBJECT, the plain object group. */
  const HierarchyClass: ClassID := 1

  /** The first data version whose files store the selection behaviour. */
  const SelectVersion: int := 23

  /** SELECTION_AA_BBOX, the default selection behaviour. */
  const AaBbox: Word := [0, 0, 0, 0]

  /** One object with the state its serialisers touch: class, header block,
      display record, children and selection behaviour. */
  datatype Node = Node(classID: ClassID, meta: Blob, own: Display, children: seq<Node>, selection: Word)

  /** isSerializable(). */
  predicate Persisted(n: Node) {
    n.classID == HierarchyClass
  }

  /** The number of serializable objects in `cs`. */
  function Count(cs: seq<Node>): (k: nat)
    ensures k <= |cs|
  {
    if cs == [] then 0 else (if Persisted(cs[0]) then 1 else 0) + Count(cs[1..])
  }

  lemma {:induction false} CountAppend(a: seq<Node>, b: seq<Node>)
    ensures Count(a + b) == Count(a) + Count(b)
    decreases |a|
  {
    if a == [] {
      assert a + b == b;
    } else {
      assert (a + b)[1..] == a[1..] + b;
      CountAppend(a[1..], b);
    }
  }

  /** A freshly created object (`New(HIERARCHY_OBJECT)`): invisible, with its
      visibility locked, no children and the default selection behaviour; the
      other display properties are those `blank` gives, the defaults of
      ccDrawableObject. */
  function Fresh(blank: Display): (r: Node)
    ensures Persisted(r) && r.children == [] && r.selection == AaBbox
    ensures !r.own.visible && r.own.lockedVisibility
  {
    Node(HierarchyClass, [], blank.(visible := false, lockedVisibility := true), [], AaBbox)
  }

  // ---------------------------------------------------------------------------
  // The bytes of a stored object
  // ---------------------------------------------------------------------------

  /** An object as toFile writes it, in the layout of data version `version`. */
  function Encode(n: Node, version: int): seq<Byte>
    decreases n, 2
  {
    U32(n.classID) + Body(n, version)
  }

  /** Everything after the class ID. */
  function Body(n: Node, version: int): seq<Byte>
    decreases n, 1
  {
    U32(|n.meta|) + n.meta + EncodeMeOnly(n.own, version)
    + U32(Count(n.children) % Two32) + Kids(n, 0, version)
    + SelectionBytes(n, version)
  }

  function SelectionBytes(n: Node, version: int): seq<Byte> {
    if version >= SelectVersion then n.selection else []
  }

  /** The serializable children of `p` from index `i` on, one after the other. */
  function Kids(p: Node, i: nat, version: int): seq<Byte>
    requires i <= |p.children|
    decreases p, 0, |p.children| - i
  {
    if i == |p.children| then []
    else (if Persisted(p.children[i]) then Encode(p.children[i], version) else []) + Kids(p, i + 1, version)
  }

  // ---------------------------------------------------------------------------
  // Reading
  // ---------------------------------------------------------------------------

  /** ReadClassIDFromFile, taken to read the four bytes of the ID and to fail at
      the end of the data. */
  function ReadClassID(s: seq<Byte>): (r: Option<(ClassID, seq<Byte>)>)
    ensures r.Some? ==> |s| >= 4 && r.value.1 == s[4..]
    ensures r.None? <==> |s| < 4
  {
    if |s| < 4 then None else Some((FromU32(s[..4]), s[4..]))
  }

  /** ccObject::fromFile after the class ID: the header block, failing when the
      data ends before it. */
  function ReadHeader(s: seq<Byte>): (r: Option<(Blob, seq<Byte>)>)
    ensures r.Some? ==> |r.value.1| < |s|
  {
    if |s| < 4 then None
    else
      var len := FromU32(s[..4]);
      if |s| - 4 < len then None else Some((s[4..4 + len], s[4 + len..]))
  }

  /** `read(&m_selectionBehavior, 4)`. */
  function ReadWord(mode: ReadMode, s: seq<Byte>, cur: Word): (r: Option<(Word, seq<Byte>)>)
    ensures r.Some? ==> |r.value.1| <= |s|
    ensures r.None? ==> mode == Checked
  {
    var f :- ReadField(mode, s, cur);
    Some((f.0, f.1))
  }

  /** fromFile after the class ID, on the object `base`, with `omit` for
      `omit_childrens`: the object read and the bytes left, or None for an error. */
  function DecodeBody(mode: ReadMode, s: seq<Byte>, version: int, omit: bool, base: Node, blank: Display)
    : (r: Option<(Node, seq<Byte>)>)
    ensures r.Some? ==> |r.value.1| < |s|
    ensures r.Some? ==> r.value.0.classID == base.classID
    ensures r.Some? && !omit && version < SelectVersion ==> r.value.0.selection == AaBbox
    ensures r.Some? && omit ==> r.value.0.children == base.children && r.value.0.selection == base.selection
    decreases |s|, 2, 0
  {
    var h :- ReadHeader(s);
    var m :- DecodeMeOnly(mode, h.1, version, base.own);
    var n1 := base.(meta := h.0, own := m.0);
    if omit then Some((n1, m.1)) else DecodeTail(mode, m.1, version, n1, blank)
  }

  /** The rest of fromFile, on the object `n` whose header and display record are
      read: the child count, the children, each created by `Fresh(blank)` and
      appended to the children of `n`, and the selection behaviour. */
  function DecodeTail(mode: ReadMode, s: seq<Byte>, version: int, n: Node, blank: Display)
    : (r: Option<(Node, seq<Byte>)>)
    ensures r.Some? ==> |r.value.1| <= |s|
    ensures r.Some? ==> r.value.0.classID == n.classID
    ensures r.Some? && version < SelectVersion ==> r.value.0.selection == AaBbox
    decreases |s|, 1, 0
  {
    var c :- ReadField(mode, s, U32(0));
    var k :- DecodeKids(mode, c.1, version, FromU32(c.0), blank);
    var sel :- if version >= SelectVersion then ReadWord(mode, k.1, n.selection) else Some((AaBbox, k.1));
    Some((n.(children := n.children + k.0, selection := sel.0), sel.1))
  }

  /** The loop of fromFile over `count` children. */
  function DecodeKids(mode: ReadMode, s: seq<Byte>, version: int, count: nat, blank: Display)
    : (r: Option<(seq<Node>, seq<Byte>)>)
    ensures r.Some? ==> |r.value.1| <= |s| && |r.value.0| == count
    decreases |s|, 0, count
  {
    if count == 0 then Some(([], s))
    else
      var id :- ReadClassID(s);
      if id.0 == ObjectClass then None
      else if id.0 != HierarchyClass then None
      else
        var c :- DecodeBody(mode, id.1, version, false, Fresh(blank), blank);
        var more :- DecodeKids(mode, c.1, version, count - 1, blank);
        Some(([c.0] + more.0, more.1))
  }

  // ---------------------------------------------------------------------------
  // Round trip
  // ---------------------------------------------------------------------------

  /** An object whose serializable children, at every level, fit the count. */
  ghost predicate Storable(n: Node)
    decreases n
  {
    && Count(n.children) < Two32
    && forall i :: 0 <= i < |n.children| && Persisted(n.children[i]) ==> Storable(n.children[i])
  }

  /** What reading back `n` on the object `base` gives: the header, the display
      record as OwnData.Restored gives it, the serializable children read back
      onto fresh objects and appended, and the selection behaviour from version
      23 on (the default before). */
  function Restored(n: Node, version: int, base: Node, blank: Display): Node
    decreases n, 1
  {
    Node(base.classID, n.meta, OwnData.Restored(n.own, version, base.own),
      base.children + RestoredKids(n, 0, version, blank),
      if version >= SelectVersion then n.selection else AaBbox)
  }

  function RestoredKids(p: Node, i: nat, version: int, blank: Display): (r: seq<Node>)
    requires i <= |p.children|
    ensures |r| == Count(p.children[i..])
    decreases p, 0, |p.children| - i
  {
    if i == |p.children| then []
    else
      assert p.children[i..] == [p.children[i]] + p.children[i + 1..];
      (if Persisted(p.children[i]) then [Restored(p.children[i], version, Fresh(blank), blank)] else [])
      + RestoredKids(p, i + 1, version, blank)
  }

  /** The caller of fromFile reads the class ID toFile wrote first. */
  lemma ClassIDRoundTrip(n: Node, version: int, t: seq<Byte>)
    ensures ReadClassID(Encode(n, version) + t) == Some((n.classID, Body(n, version) + t))
  {
    var e := U32(n.classID);
    assert Encode(n, version) + t == e + (Body(n, version) + t);
    assert (e + (Body(n, version) + t))[..4] == e;
    U32RoundTrip(n.classID);
  }

  /** Reading back a body in the layout of data version `version` gives Restored
      and leaves the bytes that follow; in either mode. toFile itself writes only
      the current layout; the older layouts are those that earlier writers
      produced. */
  lemma {:induction false} BodyRoundTrip(mode: ReadMode, n: Node, version: int, t: seq<Byte>, base: Node, blank: Display)
    requires Storable(n)
    ensures DecodeBody(mode, Body(n, version) + t, version, false, base, blank) == Some((Restored(n, version, base, blank), t))
    decreases n, 1
  {
    var sel := SelectionBytes(n, version);
    var t4 := sel + t;
    var t3 := Kids(n, 0, version) + t4;
    var count := Count(n.children);
    var t2 := U32(count) + t3;
    var t1 := EncodeMeOnly(n.own, version) + t2;
    BodySplit(n, version, t);
    HeaderRoundTrip(n.meta, t1);
    MeOnlyRoundTrip(mode, n.own, version, t2, base.own);
    ReadFieldFull(mode, U32(count), t3, U32(0));
    U32RoundTrip(count);
    assert n.children[0..] == n.children;
    KidsRoundTrip(mode, n, 0, version, t4, blank);
    var w: Word := if version >= SelectVersion then n.selection else AaBbox;
    if version >= SelectVersion {
      ReadFieldFull(mode, n.selection, t, base.selection);
    } else {
      assert t4 == t;
    }
    BodyCons(mode, Body(n, version) + t, version, base, blank, n.meta, t1,
      OwnData.Restored(n.own, version, base.own), t2, U32(count), t3,
      RestoredKids(n, 0, version, blank), t4, w, t);
  }

  /** The body followed by `t`, part after part. */
  lemma BodySplit(n: Node, version: int, t: seq<Byte>)
    requires Count(n.children) < Two32
    ensures Body(n, version) + t ==
      U32(|n.meta|) + n.meta + (EncodeMeOnly(n.own, version) + (U32(Count(n.children))
        + (Kids(n, 0, version) + (SelectionBytes(n, version) + t))))
  {
    var a, b, m, c, k, s := U32(|n.meta|), n.meta, EncodeMeOnly(n.own, version), U32(Count(n.children)),
      Kids(n, 0, version), SelectionBytes(n, version);
    assert Count(n.children) % Two32 == Count(n.children);
    assert Body(n, version) == a + b + m + c + k + s;
    Regrouped(a, b, m, c, k, s, t);
  }

  lemma Regrouped(a: seq<Byte>, b: seq<Byte>, m: seq<Byte>, c: seq<Byte>, k: seq<Byte>, s: seq<Byte>, t: seq<Byte>)
    ensures (a + b + m + c + k + s) + t == a + b + (m + (c + (k + (s + t))))
  {
  }

  /** ccObject's header reads back. */
  lemma HeaderRoundTrip(meta: Blob, t: seq<Byte>)
    ensures ReadHeader(U32(|meta|) + meta + t) == Some((meta, t))
  {
    var s := U32(|meta|) + meta + t;
    assert s[..4] == U32(|meta|);
    U32RoundTrip(|meta|);
    assert s[4..4 + |meta|] == meta;
    assert s[4 + |meta|..] == t;
  }

  lemma {:induction false} KidsRoundTrip(mode: ReadMode, p: Node, i: nat, version: int, t: seq<Byte>, blank: Display)
    requires Storable(p) && i <= |p.children|
    ensures DecodeKids(mode, Kids(p, i, version) + t, version, Count(p.children[i..]), blank)
      == Some((RestoredKids(p, i, version, blank), t))
    decreases p, 0, |p.children| - i
  {
    if i == |p.children| {
      assert p.children[i..] == [];
      assert Kids(p, i, version) + t == t;
      KidsNone(mode, t, version, blank);
    } else {
      var c := p.children[i];
      KidsRoundTrip(mode, p, i + 1, version, t, blank);
      if Persisted(c) {
        var rest := Kids(p, i + 1, version) + t;
        BodyRoundTrip(mode, c, version, rest, Fresh(blank), blank);
        PersistedStep(mode, p, i, version, t, blank);
      } else {
        SkippedStep(mode, p, i, version, t, blank);
      }
    }
  }

  /** KidsRoundTrip for a serializable child, from the facts about the child and
      the children after it. */
  lemma {:induction false} PersistedStep(mode: ReadMode, p: Node, i: nat, version: int, t: seq<Byte>, blank: Display)
    requires i < |p.children| && Persisted(p.children[i])
    requires DecodeKids(mode, Kids(p, i + 1, version) + t, version, Count(p.children[i + 1..]), blank)
      == Some((RestoredKids(p, i + 1, version, blank), t))
    requires DecodeBody(mode, Body(p.children[i], version) + (Kids(p, i + 1, version) + t), version, false, Fresh(blank), blank)
      == Some((Restored(p.children[i], version, Fresh(blank), blank), Kids(p, i + 1, version) + t))
    ensures DecodeKids(mode, Kids(p, i, version) + t, version, Count(p.children[i..]), blank)
      == Some((RestoredKids(p, i, version, blank), t))
  {
    var c := p.children[i];
    var rest := Kids(p, i + 1, version) + t;
    PersistedAt(p, i, version, t, blank);
    ClassIDRoundTrip(c, version, rest);
    KidsCons(mode, Kids(p, i, version) + t, version, Count(p.children[i..]), blank,
      Body(c, version) + rest, Restored(c, version, Fresh(blank), blank), rest,
      RestoredKids(p, i + 1, version, blank), t);
  }

  /** Kids, Count and RestoredKids at a serializable child. */
  lemma PersistedAt(p: Node, i: nat, version: int, t: seq<Byte>, blank: Display)
    requires i < |p.children| && Persisted(p.children[i])
    ensures Count(p.children[i..]) == 1 + Count(p.children[i + 1..])
    ensures RestoredKids(p, i, version, blank)
      == [Restored(p.children[i], version, Fresh(blank), blank)] + RestoredKids(p, i + 1, version, blank)
    ensures Kids(p, i, version) + t == Encode(p.children[i], version) + (Kids(p, i + 1, version) + t)
  {
    assert p.children[i..][1..] == p.children[i + 1..];
  }

  /** The loop over no children reads nothing. */
  lemma KidsNone(mode: ReadMode, s: seq<Byte>, version: int, blank: Display)
    ensures DecodeKids(mode, s, version, 0, blank) == Some(([], s))
  {
  }

  /** One turn of the loop over the children, as a whole. */
  lemma KidsCons(mode: ReadMode, s: seq<Byte>, version: int, count: nat, blank: Display,
                 s1: seq<Byte>, c: Node, s2: seq<Byte>, more: seq<Node>, t: seq<Byte>)
    requires count > 0
    requires ReadClassID(s) == Some((HierarchyClass, s1))
    requires DecodeBody(mode, s1, version, false, Fresh(blank), blank) == Some((c, s2))
    requires DecodeKids(mode, s2, version, count - 1, blank) == Some((more, t))
    ensures DecodeKids(mode, s, version, count, blank) == Some(([c] + more, t))
  {
  }

  /** KidsRoundTrip for a child that is not serializable: it is skipped. */
  lemma {:induction false} SkippedStep(mode: ReadMode, p: Node, i: nat, version: int, t: seq<Byte>, blank: Display)
    requires i < |p.children| && !Persisted(p.children[i])
    requires DecodeKids(mode, Kids(p, i + 1, version) + t, version, Count(p.children[i + 1..]), blank)
      == Some((RestoredKids(p, i + 1, version, blank), t))
    ensures DecodeKids(mode, Kids(p, i, version) + t, version, Count(p.children[i..]), blank)
      == Some((RestoredKids(p, i, version, blank), t))
  {
    assert p.children[i..][1..] == p.children[i + 1..];
    assert Count(p.children[i..]) == Count(p.children[i + 1..]);
    assert RestoredKids(p, i, version, blank) == RestoredKids(p, i + 1, version, blank);
    assert Kids(p, i, version) == Kids(p, i + 1, version);
  }

  /** A whole file read back through its class ID: the object the caller creates
      for that class becomes Restored. */
  lemma FileRoundTrip(mode: ReadMode, n: Node, version: int, base: Node, blank: Display)
    requires Storable(n)
    ensures ReadClassID(Encode(n, version)) == Some((n.classID, Body(n, version)))
    ensures DecodeBody(mode, Body(n, version), version, false, base, blank) == Some((Restored(n, version, base, blank), []))
  {
    assert Encode(n, version) + [] == Encode(n, version);
    assert Body(n, version) + [] == Body(n, version);
    ClassIDRoundTrip(n, version, []);
    BodyRoundTrip(mode, n, version, [], base, blank);
  }

  /** An object that reading back reproduces: its display properties that are not
      stored (the colour without the override, the matrix while disabled) are
      those of `blank`, and so, at every level, are its children's, which are all
      serializable. */
  ghost predicate Reproducible(n: Node, blank: Display)
    decreases n
  {
    && (n.own.colorIsOverriden || n.own.tempColor == blank.tempColor)
    && (n.own.glTransEnabled || n.own.glTrans == blank.glTrans)
    && forall i :: 0 <= i < |n.children| ==> Persisted(n.children[i]) && Reproducible(n.children[i], blank)
  }

  /** What toFile writes and fromFile reads back gives the object itself, from
      version 24 on, when it is read onto a blank object of its class and, at every
      level, nothing unstored differs from the blank object's. */
  lemma RestoredMatches(n: Node, version: int, blank: Display)
    requires version >= NameVersion
    requires Reproducible(n, blank)
    ensures Restored(n, version, n.(children := [], own := blank), blank) == n
  {
    RestoredCurrent(n.own, version, blank);
    RestoredKidsMatch(n, 0, version, blank);
    assert [] + n.children[0..] == n.children;
  }

  /** A serializable child read back onto a fresh object is the child itself. */
  lemma {:induction false} RestoredChildMatches(c: Node, version: int, blank: Display)
    requires version >= NameVersion
    requires Persisted(c) && Reproducible(c, blank)
    ensures Restored(c, version, Fresh(blank), blank) == c
    decreases c, 1
  {
    RestoredCurrent(c.own, version, Fresh(blank).own);
    RestoredKidsMatch(c, 0, version, blank);
    assert [] + c.children[0..] == c.children;
  }

  /** The children from `i` on, read back, are those children. */
  lemma {:induction false} RestoredKidsMatch(p: Node, i: nat, version: int, blank: Display)
    requires version >= NameVersion
    requires i <= |p.children|
    requires forall j :: i <= j < |p.children| ==> Persisted(p.children[j]) && Reproducible(p.children[j], blank)
    ensures RestoredKids(p, i, version, blank) == p.children[i..]
    decreases p, 0, |p.children| - i
  {
    if i < |p.children| {
      RestoredChildMatches(p.children[i], version, blank);
      RestoredKidsMatch(p, i + 1, version, blank);
      assert p.children[i..] == [p.children[i]] + p.children[i + 1..];
    }
  }

  // ---------------------------------------------------------------------------
  // Truncated files
  // ---------------------------------------------------------------------------

  /** As written, fromFile accepts a stream that ends right after the header: the
      display record, the child count and the selection keep what the object had
      (the count 0, so no children are read). */
  lemma {:induction false} HeaderOnlyAccepted(version: int, base: Node, blank: Display)
    ensures DecodeBody(AsWritten, U32(0), version, false, base, blank)
      == Some((base.(meta := [], own := OwnData.Restored(base.own, version, base.own),
                     selection := if version >= SelectVersion then base.selection else AaBbox), []))
  {
    var e: seq<Byte> := [];
    U32Zero();
    assert ReadHeader(U32(0)) == Some(([], e));
    EmptyStreamAccepted(version, base.own);
    ReadFieldAtEnd(U32(0));
    KidsNone(AsWritten, e, version, blank);
    ReadFieldAtEnd(base.selection);
    var sel: Word := if version >= SelectVersion then base.selection else AaBbox;
    assert (if version >= SelectVersion then ReadWord(AsWritten, e, base.selection) else Some((AaBbox, e)))
      == Some((sel, e));
    BodyCons(AsWritten, U32(0), version, base, blank, [], e,
      OwnData.Restored(base.own, version, base.own), e, U32(0), e, [], e, sel, e);
    assert base.children + [] == base.children;
  }

  /** fromFile after the class ID, as a whole, from what each of its reads gives. */
  lemma BodyCons(mode: ReadMode, s: seq<Byte>, version: int, base: Node, blank: Display,
                 meta: Blob, s1: seq<Byte>, own: Display, s2: seq<Byte>, cw: seq<Byte>, s3: seq<Byte>,
                 kids: seq<Node>, s4: seq<Byte>, sel: Word, s5: seq<Byte>)
    requires ReadHeader(s) == Some((meta, s1))
    requires DecodeMeOnly(mode, s1, version, base.own) == Some((own, s2))
    requires ReadField(mode, s2, U32(0)) == Some((cw, s3))
    requires DecodeKids(mode, s3, version, FromU32(cw), blank) == Some((kids, s4))
    requires (if version >= SelectVersion then ReadWord(mode, s4, base.selection) else Some((AaBbox, s4)))
      == Some((sel, s5))
    ensures DecodeBody(mode, s, version, false, base, blank)
      == Some((base.(meta := meta, own := own, children := base.children + kids, selection := sel), s5))
  {
    BodyHead(mode, s, version, false, base, blank, meta, s1, own, s2);
    TailCons(mode, s2, version, base.(meta := meta, own := own), blank, cw, s3, kids, s4, sel, s5);
  }

  /** fromFile after the class ID, once the header and the display record are
      read. */
  lemma BodyHead(mode: ReadMode, s: seq<Byte>, version: int, omit: bool, base: Node, blank: Display,
                 meta: Blob, s1: seq<Byte>, own: Display, s2: seq<Byte>)
    requires ReadHeader(s) == Some((meta, s1))
    requires DecodeMeOnly(mode, s1, version, base.own) == Some((own, s2))
    ensures DecodeBody(mode, s, version, omit, base, blank)
      == if omit then Some((base.(meta := meta, own := own), s2))
         else DecodeTail(mode, s2, version, base.(meta := meta, own := own), blank)
  {
  }

  /** fromFile fails when the display record does not read. */
  lemma BodyHeadFails(mode: ReadMode, s: seq<Byte>, version: int, omit: bool, base: Node, blank: Display,
                      meta: Blob, s1: seq<Byte>)
    requires ReadHeader(s) == Some((meta, s1))
    requires DecodeMeOnly(mode, s1, version, base.own).None?
    ensures DecodeBody(mode, s, version, omit, base, blank).None?
  {
  }

  /** What a successful fromFile read first. */
  lemma BodyInv(mode: ReadMode, s: seq<Byte>, version: int, omit: bool, base: Node, blank: Display)
    returns (meta: Blob, s1: seq<Byte>, own: Display, s2: seq<Byte>)
    requires DecodeBody(mode, s, version, omit, base, blank).Some?
    ensures ReadHeader(s) == Some((meta, s1))
    ensures DecodeMeOnly(mode, s1, version, base.own) == Some((own, s2))
    ensures DecodeBody(mode, s, version, omit, base, blank)
      == if omit then Some((base.(meta := meta, own := own), s2))
         else DecodeTail(mode, s2, version, base.(meta := meta, own := own), blank)
  {
    var h := ReadHeader(s).value;
    meta, s1 := h.0, h.1;
    var m := DecodeMeOnly(mode, s1, version, base.own).value;
    own, s2 := m.0, m.1;
    BodyHead(mode, s, version, omit, base, blank, meta, s1, own, s2);
  }

  /** The rest of fromFile, as a whole, from what each of its reads gives. */
  lemma TailCons(mode: ReadMode, s: seq<Byte>, version: int, n: Node, blank: Display,
                 cw: seq<Byte>, s1: seq<Byte>, kids: seq<Node>, s2: seq<Byte>, sel: Word, s3: seq<Byte>)
    requires ReadField(mode, s, U32(0)) == Some((cw, s1))
    requires DecodeKids(mode, s1, version, FromU32(cw), blank) == Some((kids, s2))
    requires (if version >= SelectVersion then ReadWord(mode, s2, n.selection) else Some((AaBbox, s2)))
      == Some((sel, s3))
    ensures DecodeTail(mode, s, version, n, blank)
      == Some((n.(children := n.children + kids, selection := sel), s3))
  {
  }

  /** What a successful rest of fromFile read. */
  lemma TailInv(mode: ReadMode, s: seq<Byte>, version: int, n: Node, blank: Display)
    returns (cw: seq<Byte>, s1: seq<Byte>, kids: seq<Node>, s2: seq<Byte>, sel: Word, s3: seq<Byte>)
    requires DecodeTail(mode, s, version, n, blank).Some?
    ensures ReadField(mode, s, U32(0)) == Some((cw, s1))
    ensures DecodeKids(mode, s1, version, FromU32(cw), blank) == Some((kids, s2))
    ensures (if version >= SelectVersion then ReadWord(mode, s2, n.selection) else Some((AaBbox, s2)))
      == Some((sel, s3))
    ensures DecodeTail(mode, s, version, n, blank)
      == Some((n.(children := n.children + kids, selection := sel), s3))
  {
    var c := ReadField(mode, s, U32(0)).value;
    cw, s1 := c.0, c.1;
    var k := DecodeKids(mode, s1, version, FromU32(cw), blank).value;
    kids, s2 := k.0, k.1;
    var w := (if version >= SelectVersion then ReadWord(mode, s2, n.selection) else Some((AaBbox, s2))).value;
    sel, s3 := w.0, w.1;
    TailCons(mode, s, version, n, blank, cw, s1, kids, s2, sel, s3);
  }

  /** With every read checked, a read of an object that succeeds on `s` succeeds
      the same way when more bytes follow. */
  lemma {:induction false} BodyExtends(s: seq<Byte>, t: seq<Byte>, version: int, omit: bool, base: Node, blank: Display,
                                      r: Node, rest: seq<Byte>)
    requires DecodeBody(Checked, s, version, omit, base, blank) == Some((r, rest))
    ensures DecodeBody(Checked, s + t, version, omit, base, blank) == Some((r, rest + t))
    decreases |s|, 2, 0
  {
    var meta, s1, own, s2 := BodyInv(Checked, s, version, omit, base, blank);
    HeaderExtends(s, t);
    CheckedExtends(s1, t, version, base.own);
    if !omit {
      TailExtends(s2, t, version, base.(meta := meta, own := own), blank, r, rest);
    }
    BodyHead(Checked, s + t, version, omit, base, blank, meta, s1 + t, own, s2 + t);
  }

  lemma {:induction false} TailExtends(s: seq<Byte>, t: seq<Byte>, version: int, n: Node, blank: Display,
                                      r: Node, rest: seq<Byte>)
    requires DecodeTail(Checked, s, version, n, blank) == Some((r, rest))
    ensures DecodeTail(Checked, s + t, version, n, blank) == Some((r, rest + t))
    decreases |s|, 1, 0
  {
    var cw, s1, kids, s2, sel, s3 := TailInv(Checked, s, version, n, blank);
    FieldExtends(s, t, U32(0));
    KidsExtends(s1, t, version, FromU32(cw), blank, kids, s2);
    if version >= SelectVersion {
      FieldExtends(s2, t, n.selection);
    }
    TailCons(Checked, s + t, version, n, blank, cw, s1 + t, kids, s2 + t, sel, s3 + t);
  }

  lemma {:induction false} KidsExtends(s: seq<Byte>, t: seq<Byte>, version: int, count: nat, blank: Display,
                                      kids: seq<Node>, rest: seq<Byte>)
    requires DecodeKids(Checked, s, version, count, blank) == Some((kids, rest))
    ensures DecodeKids(Checked, s + t, version, count, blank) == Some((kids, rest + t))
    decreases |s|, 0, count, 1
  {
    if count == 0 {
      KidsNone(Checked, s, version, blank);
      KidsNone(Checked, s + t, version, blank);
    } else {
      var s1, c, s2, more, s3 := KidsInv(Checked, s, version, count, blank);
      KidsStepExtends(s, t, version, count, blank, s1, c, s2, more, s3);
    }
  }

  /** One child of a checked read, followed by more bytes. */
  lemma {:induction false} KidsStepExtends(s: seq<Byte>, t: seq<Byte>, version: int, count: nat, blank: Display,
                                          s1: seq<Byte>, c: Node, s2: seq<Byte>, more: seq<Node>, s3: seq<Byte>)
    requires count > 0 && |s2| < |s1| < |s|
    requires ReadClassID(s) == Some((HierarchyClass, s1))
    requires DecodeBody(Checked, s1, version, false, Fresh(blank), blank) == Some((c, s2))
    requires DecodeKids(Checked, s2, version, count - 1, blank) == Some((more, s3))
    ensures DecodeKids(Checked, s + t, version, count, blank) == Some(([c] + more, s3 + t))
    decreases |s|, 0, count, 0
  {
    ClassIDExtends(s, t, HierarchyClass, s1);
    BodyExtends(s1, t, version, false, Fresh(blank), blank, c, s2);
    KidsExtends(s2, t, version, count - 1, blank, more, s3);
    KidsCons(Checked, s + t, version, count, blank, s1 + t, c, s2 + t, more, s3 + t);
  }

  /** What a successful turn of the loop over the children read. */
  lemma KidsInv(mode: ReadMode, s: seq<Byte>, version: int, count: nat, blank: Display)
    returns (s1: seq<Byte>, c: Node, s2: seq<Byte>, more: seq<Node>, s3: seq<Byte>)
    requires count > 0 && DecodeKids(mode, s, version, count, blank).Some?
    ensures ReadClassID(s) == Some((HierarchyClass, s1))
    ensures DecodeBody(mode, s1, version, false, Fresh(blank), blank) == Some((c, s2))
    ensures DecodeKids(mode, s2, version, count - 1, blank) == Some((more, s3))
    ensures DecodeKids(mode, s, version, count, blank) == Some(([c] + more, s3))
    ensures |s2| < |s1| < |s|
  {
    s1 := ReadClassID(s).value.1;
    var r := DecodeBody(mode, s1, version, false, Fresh(blank), blank).value;
    c, s2 := r.0, r.1;
    var k := DecodeKids(mode, s2, version, count - 1, blank).value;
    more, s3 := k.0, k.1;
  }

  lemma ClassIDExtends(s: seq<Byte>, t: seq<Byte>, id: ClassID, rest: seq<Byte>)
    requires ReadClassID(s) == Some((id, rest))
    ensures ReadClassID(s + t) == Some((id, rest + t))
  {
    assert (s + t)[..4] == s[..4];
    assert (s + t)[4..] == s[4..] + t;
  }

  lemma HeaderExtends(s: seq<Byte>, t: seq<Byte>)
    requires ReadHeader(s).Some?
    ensures ReadHeader(s + t) == Some((ReadHeader(s).value.0, ReadHeader(s).value.1 + t))
  {
    var len := FromU32(s[..4]);
    assert (s + t)[..4] == s[..4];
    assert (s + t)[4..4 + len] == s[4..4 + len];
    assert (s + t)[4 + len..] == s[4 + len..] + t;
  }

  /** With every read checked, fromFile fails on a stream that ends before the
      object does. */
  lemma CheckedRejectsTruncatedTree(n: Node, version: int, k: nat, base: Node, blank: Display)
    requires Storable(n) && k < |Body(n, version)|
    ensures DecodeBody(Checked, Body(n, version)[..k], version, false, base, blank) == None
  {
    var e := Body(n, version);
    var p, q := e[..k], e[k..];
    assert p + q == e;
    assert e + [] == e;
    BodyRoundTrip(Checked, n, version, [], base, blank);
    var d := DecodeBody(Checked, p, version, false, base, blank);
    if d.Some? {
      BodyExtends(p, q, version, false, base, blank, d.value.0, d.value.1);
      assert false;
    }
  }

  // ---------------------------------------------------------------------------
  // The serialisers
  // ---------------------------------------------------------------------------

  /** toFile: appends the object, its class ID first, in the current layout. */
  method ToFile(n: Node, out: OutStream)
    modifies out
    ensures out.data == old(out.data) + Encode(n, NameVersion)
    decreases n, 2
  {
    out.Write(U32(n.classID));
    ToFileBody(n, out);
  }

  /** Everything toFile writes after the class ID. */
  method ToFileBody(n: Node, out: OutStream)
    modifies out
    ensures out.data == old(out.data) + Body(n, NameVersion)
    decreases n, 1
  {
    ghost var start := out.data;
    out.Write(U32(|n.meta|));
    out.Write(n.meta);
    var st := new DrawableState(n.own);
    st.ToFileMeOnly(out);
    var count := SerializableCount(n.children);
    out.Write(U32(count));
    ToFileKids(n, out);
    out.Write(n.selection);
    Appended(start, U32(|n.meta|), n.meta, EncodeMeOnly(n.own, NameVersion),
      U32(Count(n.children) % Two32), Kids(n, 0, NameVersion), SelectionBytes(n, NameVersion));
  }

  lemma Appended(s: seq<Byte>, a: seq<Byte>, b: seq<Byte>, c: seq<Byte>, d: seq<Byte>, e: seq<Byte>, f: seq<Byte>)
    ensures s + a + b + c + d + e + f == s + (a + b + c + d + e + f)
  {
  }

  /** The loop counting the serializable children, in a 32-bit counter. */
  method SerializableCount(cs: seq<Node>) returns (count: nat)
    ensures count == Count(cs) % Two32
  {
    count := 0;
    var i := 0;
    while i < |cs|
      invariant i <= |cs|
      invariant count == Count(cs[..i]) % Two32
    {
      CountNext(cs, i);
      if Persisted(cs[i]) {
        WrapNext(count, Count(cs[..i]));
        count := (count + 1) % Two32;
      }
      i := i + 1;
    }
    assert cs[..i] == cs;
  }

  /** Counting on from a wrapped value wraps like counting on from the full one. */
  lemma WrapNext(count: nat, k: nat)
    requires count == k % Two32
    ensures (count + 1) % Two32 == (k + 1) % Two32
  {
  }

  /** One more child in the count. */
  lemma CountNext(cs: seq<Node>, i: nat)
    requires i < |cs|
    ensures Count(cs[..i + 1]) == Count(cs[..i]) + if Persisted(cs[i]) then 1 else 0
  {
    assert cs[..i + 1] == cs[..i] + [cs[i]];
    CountAppend(cs[..i], [cs[i]]);
    assert [cs[i]][1..] == [];
  }

  /** The loop writing the serializable children. */
  method ToFileKids(n: Node, out: OutStream)
    modifies out
    ensures out.data == old(out.data) + Kids(n, 0, NameVersion)
    decreases n, 0
  {
    var i := 0;
    while i < |n.children|
      invariant i <= |n.children|
      invariant out.data + Kids(n, i, NameVersion) == old(out.data) + Kids(n, 0, NameVersion)
    {
      ghost var before := out.data;
      var c := n.children[i];
      ghost var w: seq<Byte> := [];
      if Persisted(c) {
        ToFile(c, out);
        w := Encode(c, NameVersion);
      } else {
        assert out.data == before + w;
      }
      KidsWritten(n, i, NameVersion, before, w, old(out.data) + Kids(n, 0, NameVersion));
      i := i + 1;
    }
    assert Kids(n, i, NameVersion) == [];
  }

  /** Writing the child at `i`, or nothing when it is not serializable, moves
      the loop of toFile on by one child. */
  lemma KidsWritten(n: Node, i: nat, version: int, before: seq<Byte>, w: seq<Byte>, total: seq<Byte>)
    requires i < |n.children|
    requires w == if Persisted(n.children[i]) then Encode(n.children[i], version) else []
    requires before + Kids(n, i, version) == total
    ensures (before + w) + Kids(n, i + 1, version) == total
  {
    assert Kids(n, i, version) == w + Kids(n, i + 1, version);
  }

  /** ccObject::fromFile after the class ID: the header block, or false. */
  method ReadHeaderInto(input: InStream) returns (ok: bool, meta: Blob)
    requires input.Valid()
    modifies input
    ensures input.Valid() && input.data == old(input.data)
    ensures var h := ReadHeader(old(input.Rest()));
      && (ok <==> h.Some?)
      && (ok ==> meta == h.value.0 && input.Rest() == h.value.1)
  {
    ghost var s := input.Rest();
    var w := input.Read(4);
    if |w| < 4 {
      return false, [];
    }
    var len := FromU32(w);
    var b := input.Read(len);
    if |b| < len {
      return false, [];
    }
    assert s[4..][..len] == s[4..4 + len];
    assert s[4..][len..] == s[4 + len..];
    return true, b;
  }

  /** ReadClassIDFromFile. */
  method ReadClassIDInto(input: InStream) returns (ok: bool, id: ClassID)
    requires input.Valid()
    modifies input
    ensures input.Valid() && input.data == old(input.data)
    ensures var r := ReadClassID(old(input.Rest()));
      && (ok <==> r.Some?)
      && (ok ==> id == r.value.0 && input.Rest() == r.value.1)
  {
    var w := input.Read(4);
    if |w| < 4 {
      return false, ObjectClass;
    }
    return true, FromU32(w);
  }

  /** fromFile on the object `base`, after its class ID: true and the object read,
      with the bytes read consumed, exactly when DecodeBody succeeds. */
  method FromFile(input: InStream, version: int, mode: ReadMode, omit: bool, base: Node, blank: Display)
    returns (ok: bool, r: Node)
    requires input.Valid()
    modifies input
    ensures input.Valid() && input.data == old(input.data)
    ensures var d := DecodeBody(mode, old(input.Rest()), version, omit, base, blank);
      && (ok <==> d.Some?)
      && (ok ==> r == d.value.0 && input.Rest() == d.value.1)
    decreases |input.data| - input.pos, 3
  {
    ghost var s := input.Rest();
    var okh, meta := ReadHeaderInto(input);
    if !okh {
      return false, base;
    }
    ghost var s1 := input.Rest();
    var st := new DrawableState(base.own);
    var okm := st.FromFileMeOnly(input, version, mode);
    if !okm {
      BodyHeadFails(mode, s, version, omit, base, blank, meta, s1);
      return false, base;
    }
    ghost var s2 := input.Rest();
    var own := st.Model();
    var n1 := base.(meta := meta, own := own);
    BodyHead(mode, s, version, omit, base, blank, meta, s1, own, s2);
    if omit {
      return true, n1;
    }
    ghost var d := DecodeTail(mode, s2, version, n1, blank);
    assert DecodeBody(mode, s, version, omit, base, blank) == d;
    ok, r := FromFileTail(input, version, mode, n1, blank);
  }

  /** The rest of fromFile: true and the object read, with the bytes read
      consumed, exactly when DecodeTail succeeds. */
  method FromFileTail(input: InStream, version: int, mode: ReadMode, n: Node, blank: Display)
    returns (ok: bool, r: Node)
    requires input.Valid()
    modifies input
    ensures input.Valid() && input.data == old(input.data)
    ensures var d := DecodeTail(mode, old(input.Rest()), version, n, blank);
      && (ok <==> d.Some?)
      && (ok ==> r == d.value.0 && input.Rest() == d.value.1)
    decreases |input.data| - input.pos, 2
  {
    var okc, cw := ReadInto(input, mode, U32(0));
    if !okc {
      return false, n;
    }
    var okk, kids := FromFileKids(input, version, mode, FromU32(cw), blank);
    if !okk {
      return false, n;
    }
    var sel: Word := AaBbox;
    if version >= SelectVersion {
      var oks, w := ReadInto(input, mode, n.selection);
      if !oks {
        return false, n;
      }
      sel := w;
    }
    return true, n.(children := n.children + kids, selection := sel);
  }

  /** The loop of fromFile over `count` children, each read onto `Fresh(blank)`. */
  method FromFileKids(input: InStream, version: int, mode: ReadMode, count: nat, blank: Display)
    returns (ok: bool, kids: seq<Node>)
    requires input.Valid()
    modifies input
    ensures input.Valid() && input.data == old(input.data)
    ensures var d := DecodeKids(mode, old(input.Rest()), version, count, blank);
      && (ok <==> d.Some?)
      && (ok ==> kids == d.value.0 && input.Rest() == d.value.1)
    decreases |input.data| - input.pos, 1
  {
    ghost var s := input.Rest();
    ghost var d := DecodeKids(mode, s, version, count, blank);
    kids := [];
    var left := count;
    PrependEmpty(d);
    while left > 0
      invariant input.Valid() && input.data == old(input.data)
      invariant |input.Rest()| <= |s|
      invariant d == Prepend(kids, DecodeKids(mode, input.Rest(), version, left, blank))
    {
      var okc, c;
      okc, c, left := FromFileChild(input, version, mode, left, blank);
      if !okc {
        return false, kids;
      }
      PrependTwice(kids, [c], DecodeKids(mode, input.Rest(), version, left, blank));
      kids := kids + [c];
    }
    KidsNone(mode, input.Rest(), version, blank);
    assert kids + [] == kids;
    ok := true;
  }

  /** One turn of the loop over the children, with `count` of them still to
      read: the class ID, checked, and the child read onto a fresh object; `left`
      is the number still to read after it. */
  method FromFileChild(input: InStream, version: int, mode: ReadMode, count: nat, blank: Display)
    returns (ok: bool, c: Node, left: nat)
    requires input.Valid() && count > 0
    modifies input
    ensures input.Valid() && input.data == old(input.data) && left == count - 1
    ensures var d := DecodeKids(mode, old(input.Rest()), version, count, blank);
      && (!ok ==> d.None?)
      && (ok ==> d == Prepend([c], DecodeKids(mode, input.Rest(), version, left, blank)))
    ensures ok ==> |input.Rest()| < |old(input.Rest())|
    decreases |input.data| - input.pos, 0
  {
    ghost var s := input.Rest();
    var okid, id := ReadClassIDInto(input);
    if !okid || id == ObjectClass || id != HierarchyClass {
      KidsFail(mode, s, version, count, blank);
      return false, Fresh(blank), count - 1;
    }
    ghost var s1 := input.Rest();
    left := count - 1;
    ok, c := FromFile(input, version, mode, false, Fresh(blank), blank);
    if !ok {
      KidsFail(mode, s, version, count, blank);
      return;
    }
    KidsStep(mode, s, version, count, blank, s1, c, input.Rest());
  }

  /** `kids` put in front of the children a read gives. */
  function Prepend(kids: seq<Node>, r: Option<(seq<Node>, seq<Byte>)>): (p: Option<(seq<Node>, seq<Byte>)>)
    ensures p.Some? <==> r.Some?
    ensures p.Some? ==> p.value == (kids + r.value.0, r.value.1)
  {
    if r.Some? then Some((kids + r.value.0, r.value.1)) else None
  }

  lemma PrependEmpty(r: Option<(seq<Node>, seq<Byte>)>)
    ensures Prepend([], r) == r
  {
    if r.Some? {
      assert [] + r.value.0 == r.value.0;
    }
  }

  lemma PrependTwice(a: seq<Node>, b: seq<Node>, r: Option<(seq<Node>, seq<Byte>)>)
    ensures Prepend(a, Prepend(b, r)) == Prepend(a + b, r)
  {
    if r.Some? {
      assert a + (b + r.value.0) == (a + b) + r.value.0;
    }
  }

  /** One turn of the loop over the children, when the class ID and the child
      read. */
  lemma KidsStep(mode: ReadMode, s: seq<Byte>, version: int, count: nat, blank: Display,
                 s1: seq<Byte>, c: Node, s2: seq<Byte>)
    requires count > 0
    requires ReadClassID(s) == Some((HierarchyClass, s1))
    requires DecodeBody(mode, s1, version, false, Fresh(blank), blank) == Some((c, s2))
    ensures DecodeKids(mode, s, version, count, blank) == Prepend([c], DecodeKids(mode, s2, version, count - 1, blank))
  {
  }

  /** A turn of the loop over the children fails when the class ID does not read,
      is not that of a plain object, or the child does not read. */
  lemma KidsFail(mode: ReadMode, s: seq<Byte>, version: int, count: nat, blank: Display)
    requires count > 0
    requires || ReadClassID(s).None?
             || ReadClassID(s).value.0 != HierarchyClass
             || DecodeBody(mode, ReadClassID(s).value.1, version, false, Fresh(blank), blank).None?
    ensures DecodeKids(mode, s, version, count, blank).None?
  {
  }
}
