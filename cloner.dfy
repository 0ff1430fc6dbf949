/**
 * `duplicate_slide_with_images`: a new slide on the source's layout, the
 * source's relationships copied into it (old rId -> new rId), its shapes and
 * background deep-copied with relationship references rewritten.
 */
module Cloner {
  import opened Wrappers
  import opened Text
  import opened Package
  import opened Scanner

  type Relate = (seq<RelEntry>, Rel) -> Option<RId>

  // ---------------------------------------------------------------------------
  // Copying relationships
  // ---------------------------------------------------------------------------

  /** Relationships to the slide layout or notes slide are never copied. */
  predicate IsStructural(relType: string)
  {
    Contains(relType, "slideLayout") || Contains(relType, "notesSlide")
  }

  /** The rId map built so far and the destination table. */
  datatype RelCopy = RelCopy(ridMap: map<RId, RId>, dest: seq<RelEntry>)

  /**
   * One iteration of the copy loop: skip structural relationships; an internal
   * relationship whose relate_to raises is skipped; one for an external
   * relationship aborts the copy (None), as the source does not catch it.
   */
  function CopyStep(c: RelCopy, e: RelEntry, relate: Relate): Option<RelCopy>
  {
    if IsStructural(e.rel.relType) then Some(c)
    else match relate(c.dest, e.rel)
      case None => if e.rel.isExternal then None else Some(c)
      case Some(rid) => Some(RelCopy(c.ridMap[e.rId := rid], AddRel(c.dest, rid, e.rel)))
  }

  /** The copy loop over the source table in order, from `init`. */
  function CopyRels(src: seq<RelEntry>, init: RelCopy, relate: Relate): Option<RelCopy>
    decreases |src|
  {
    if |src| == 0 then Some(init)
    else match CopyRels(src[..|src| - 1], init, relate)
      case None => None
      case Some(c) => CopyStep(c, src[|src| - 1], relate)
  }

  /** The rIds of the source entries that the copy may map. */
  function Mappable(src: seq<RelEntry>): set<RId>
  {
    set k | 0 <= k < |src| && !IsStructural(src[k].rel.relType) :: src[k].rId
  }

  /** Once the copy has failed it stays failed. */
  lemma {:induction false} CopyFailurePersists(src: seq<RelEntry>, i: nat, init: RelCopy, relate: Relate)
    requires i <= |src| && CopyRels(src[..i], init, relate).None?
    ensures CopyRels(src, init, relate).None?
    decreases |src| - i
  {
    if i < |src| {
      assert src[..i + 1][..i] == src[..i];
      CopyFailurePersists(src, i + 1, init, relate);
    } else {
      assert src[..i] == src;
    }
  }

  /**
   * The copied map's domain holds only the rIds it started with and rIds of
   * source relationships that are neither layout nor notes relationships, and
   * the destination table keeps its rIds unique.
   */
  lemma {:induction false} CopyRelsDomain(src: seq<RelEntry>, init: RelCopy, relate: Relate)
    requires DistinctRIds(init.dest)
    requires CopyRels(src, init, relate).Some?
    ensures CopyRels(src, init, relate).value.ridMap.Keys <= init.ridMap.Keys + Mappable(src)
    ensures DistinctRIds(CopyRels(src, init, relate).value.dest)
    decreases |src|
  {
    if |src| > 0 {
      var pre := src[..|src| - 1];
      CopyRelsDomain(pre, init, relate);
      var c := CopyRels(pre, init, relate).value;
      var e := src[|src| - 1];
      assert Mappable(pre) <= Mappable(src) by {
        forall x | x in Mappable(pre) ensures x in Mappable(src) {
          var k :| 0 <= k < |pre| && !IsStructural(pre[k].rel.relType) && pre[k].rId == x;
          assert src[k] == pre[k];
        }
      }
      if !IsStructural(e.rel.relType) && relate(c.dest, e.rel).Some? {
        assert e.rId in Mappable(src);
        AddRelKeepsDistinct(c.dest, relate(c.dest, e.rel).value, e.rel);
      }
    }
  }

  /** The copy state just before source entry i is handled. */
  function StateBefore(src: seq<RelEntry>, i: nat, init: RelCopy, relate: Relate): Option<RelCopy>
    requires i <= |src|
  {
    CopyRels(src[..i], init, relate)
  }

  /**
   * For a successful copy from an empty map: a non-structural source rId is
   * mapped exactly when relate_to succeeded for it (always, for an external
   * one), and then to the rId relate_to gave.
   */
  lemma {:induction false} CopyRelsMapping(src: seq<RelEntry>, i: nat, d0: seq<RelEntry>, relate: Relate)
    requires DistinctRIds(src) && DistinctRIds(d0)
    requires i < |src| && !IsStructural(src[i].rel.relType)
    requires CopyRels(src, RelCopy(map[], d0), relate).Some?
    ensures StateBefore(src, i, RelCopy(map[], d0), relate).Some?
    ensures var before := StateBefore(src, i, RelCopy(map[], d0), relate).value;
            var c := CopyRels(src, RelCopy(map[], d0), relate).value;
            var r := relate(before.dest, src[i].rel);
            (src[i].rel.isExternal ==> r.Some?) &&
            (src[i].rId in c.ridMap <==> r.Some?) &&
            (r.Some? ==> c.ridMap[src[i].rId] == r.value)
    decreases |src|
  {
    var init := RelCopy(map[], d0);
    var pre := src[..|src| - 1];
    assert src[..i] == pre[..i] || i == |src| - 1;
    if CopyRels(src[..i], init, relate).None? {
      CopyFailurePersists(src, i, init, relate);
    }
    if i == |src| - 1 {
      assert pre == src[..i];
      var c := CopyRels(pre, init, relate).value;
      CopyRelsDomain(pre, init, relate);
      assert src[i].rId !in Mappable(pre) by {
        forall k | 0 <= k < |pre| ensures pre[k].rId != src[i].rId {
          assert pre[k] == src[k];
        }
      }
    } else {
      assert pre[..i] == src[..i];
      forall a, b | 0 <= a < b < |pre| ensures pre[a].rId != pre[b].rId {
        assert pre[a] == src[a] && pre[b] == src[b];
      }
      if CopyRels(pre, init, relate).None? {
        assert false;
      }
      CopyRelsMapping(pre, i, d0, relate);
      assert src[|src| - 1].rId != src[i].rId;
    }
  }

  /**
   * The copy fails exactly when relate_to raised for some external,
   * non-structural source relationship.
   */
  lemma {:induction false} CopyRelsFails(src: seq<RelEntry>, init: RelCopy, relate: Relate)
    ensures CopyRels(src, init, relate).None? <==>
            exists i :: 0 <= i < |src| && StateBefore(src, i, init, relate).Some?
                        && !IsStructural(src[i].rel.relType) && src[i].rel.isExternal
                        && relate(StateBefore(src, i, init, relate).value.dest, src[i].rel).None?
    decreases |src|
  {
    if |src| > 0 {
      var n := |src| - 1;
      var pre := src[..n];
      CopyRelsFails(pre, init, relate);
      assert src[..n] == pre;
      forall i | 0 <= i < n ensures StateBefore(src, i, init, relate) == StateBefore(pre, i, init, relate) {
        assert src[..i] == pre[..i];
      }
      if CopyRels(pre, init, relate).None? {
        var i :| 0 <= i < |pre| && StateBefore(pre, i, init, relate).Some?
                 && !IsStructural(pre[i].rel.relType) && pre[i].rel.isExternal
                 && relate(StateBefore(pre, i, init, relate).value.dest, pre[i].rel).None?;
        assert src[i] == pre[i];
      } else {
        assert StateBefore(src, n, init, relate) == CopyRels(pre, init, relate);
      }
    }
  }

  // ---------------------------------------------------------------------------
  // Rewriting relationship references in copied markup
  // ---------------------------------------------------------------------------

  /** Attribute-name suffixes that mark a relationship reference in a shape. */
  const REF_SUFFIXES: seq<string> := ["}embed", "}link", "}id"]

  /** The suffixes checked in the background. */
  const BACKGROUND_SUFFIXES: seq<string> := ["}embed", "}link"]

  predicate IsRefName(name: string, suffixes: seq<string>)
  {
    exists k :: 0 <= k < |suffixes| && EndsWith(name, suffixes[k])
  }

  /** An attribute value after rewriting: mapped only for a reference name whose value is a key of the map. */
  function RewriteValue(name: string, value: string, suffixes: seq<string>, ridMap: map<RId, RId>): string
  {
    if IsRefName(name, suffixes) && value in ridMap then ridMap[value] else value
  }

  function RewriteAttrs(attrs: map<string, string>, suffixes: seq<string>, ridMap: map<RId, RId>): map<string, string>
  {
    map k | k in attrs :: RewriteValue(k, attrs[k], suffixes, ridMap)
  }

  /** The deep copy of an element with every element's attributes rewritten. */
  function Rewritten(e: Element, suffixes: seq<string>, ridMap: map<RId, RId>): Element
    decreases e
  {
    Element(e.tag, RewriteAttrs(e.attrs, suffixes, ridMap),
            seq(|e.children|, i requires 0 <= i < |e.children| => Rewritten(e.children[i], suffixes, ridMap)))
  }

  /** The element reached from e by following child positions, if any. */
  function Subtree(e: Element, path: seq<nat>): Option<Element>
    decreases |path|
  {
    if |path| == 0 then Some(e)
    else if path[0] < |e.children| then Subtree(e.children[path[0]], path[1..])
    else None
  }

  /**
   * Rewriting keeps the tree's shape and tags; at every position, an attribute
   * changes only if its name ends in one of the suffixes and its value is a key
   * of the map, and such an attribute takes the mapped value.
   */
  lemma {:induction false} RewrittenAt(e: Element, suffixes: seq<string>, ridMap: map<RId, RId>, path: seq<nat>)
    ensures Subtree(Rewritten(e, suffixes, ridMap), path).Some? == Subtree(e, path).Some?
    ensures Subtree(e, path).Some? ==>
      var x := Subtree(e, path).value;
      var y := Subtree(Rewritten(e, suffixes, ridMap), path).value;
      y.tag == x.tag && |y.children| == |x.children| && y.attrs.Keys == x.attrs.Keys &&
      (forall a :: a in x.attrs && y.attrs[a] != x.attrs[a] ==> IsRefName(a, suffixes) && x.attrs[a] in ridMap) &&
      (forall a :: a in x.attrs && IsRefName(a, suffixes) && x.attrs[a] in ridMap ==> y.attrs[a] == ridMap[x.attrs[a]])
    decreases |path|
  {
    if |path| > 0 && path[0] < |e.children| {
      RewrittenAt(e.children[path[0]], suffixes, ridMap, path[1..]);
    }
  }

  /**
   * The attribute loop and `iter()` walk over one copied element: every
   * attribute of every element is checked once.
   */
  method RewriteReferences(e: Element, suffixes: seq<string>, ridMap: map<RId, RId>) returns (r: Element)
    ensures r == Rewritten(e, suffixes, ridMap)
    decreases e
  {
    var attrs := e.attrs;
    var todo := e.attrs.Keys;
    while todo != {}
      invariant todo <= e.attrs.Keys && attrs.Keys == e.attrs.Keys
      invariant forall a :: a in e.attrs ==>
        attrs[a] == (if a in todo then e.attrs[a] else RewriteValue(a, e.attrs[a], suffixes, ridMap))
      decreases todo
    {
      var a :| a in todo;
      if IsRefName(a, suffixes) {
        var oldRid := attrs[a];
        if oldRid in ridMap {
          attrs := attrs[a := ridMap[oldRid]];
        }
      }
      todo := todo - {a};
    }
    var children: seq<Element> := [];
    var i := 0;
    while i < |e.children|
      invariant 0 <= i <= |e.children| && |children| == i
      invariant forall k :: 0 <= k < i ==> children[k] == Rewritten(e.children[k], suffixes, ridMap)
    {
      var c := RewriteReferences(e.children[i], suffixes, ridMap);
      children := children + [c];
      i := i + 1;
    }
    r := Element(e.tag, attrs, children);
  }

  /** The deep copy of a text frame: run properties rewritten, texts kept. */
  function RewriteFrame(f: TextFrame, ridMap: map<RId, RId>): TextFrame
  {
    seq(|f|, q requires 0 <= q < |f| =>
      Paragraph(seq(|f[q].runs|, k requires 0 <= k < |f[q].runs| =>
        var r := f[q].runs[k];
        r.(rPr := if r.rPr.Some? then Some(Rewritten(r.rPr.value, REF_SUFFIXES, ridMap)) else None))))
  }

  /** The deep copy of a shape with its references rewritten. */
  function CopiedShape(sh: Shape, ridMap: map<RId, RId>): Shape
  {
    Shape(Rewritten(sh.element, REF_SUFFIXES, ridMap),
          if sh.textFrame.Some? then Some(RewriteFrame(sh.textFrame.value, ridMap)) else None)
  }

  /** `deepcopy(shape.element)` followed by the rewriting walk. */
  method CopyShape(sh: Shape, ridMap: map<RId, RId>) returns (r: Shape)
    ensures r == CopiedShape(sh, ridMap)
  {
    var el := RewriteReferences(sh.element, REF_SUFFIXES, ridMap);
    if sh.textFrame.None? {
      return Shape(el, None);
    }
    var f := sh.textFrame.value;
    var g: TextFrame := [];
    var q := 0;
    while q < |f|
      invariant 0 <= q <= |f| && |g| == q
      invariant forall p :: 0 <= p < q ==> g[p] == RewriteFrame(f, ridMap)[p]
    {
      var runs: seq<Run> := [];
      var k := 0;
      while k < |f[q].runs|
        invariant 0 <= k <= |f[q].runs| && |runs| == k
        invariant forall j :: 0 <= j < k ==> runs[j] == RewriteFrame(f, ridMap)[q].runs[j]
      {
        var run := f[q].runs[k];
        if run.rPr.Some? {
          var p := RewriteReferences(run.rPr.value, REF_SUFFIXES, ridMap);
          run := run.(rPr := Some(p));
        }
        runs := runs + [run];
        k := k + 1;
      }
      assert Paragraph(runs) == RewriteFrame(f, ridMap)[q];
      g := g + [Paragraph(runs)];
      q := q + 1;
    }
    assert g == RewriteFrame(f, ridMap);
    r := Shape(el, Some(g));
  }

  // ---------------------------------------------------------------------------
  // The clone
  // ---------------------------------------------------------------------------

  function CopyShapes(shapes: seq<Shape>, ridMap: map<RId, RId>): seq<Shape>
  {
    seq(|shapes|, k requires 0 <= k < |shapes| => CopiedShape(shapes[k], ridMap))
  }

  function CopyBackground(bg: Option<Element>, ridMap: map<RId, RId>): Option<Element>
  {
    if bg.Some? then Some(Rewritten(bg.value, BACKGROUND_SUFFIXES, ridMap)) else None
  }

  /** The initial state of the copy: an empty map and the new slide's own table. */
  function InitialCopy(layout: Layout): RelCopy
  {
    RelCopy(map[], NewSlideValue(layout).rels)
  }

  /** The value of the clone of `src`, or None when an external relationship could not be copied. */
  function CloneOf(src: SlideValue, relate: Relate): Option<SlideValue>
  {
    match CopyRels(src.rels, InitialCopy(src.layout), relate)
    case None => None
    case Some(c) => Some(SlideValue(CopyShapes(src.shapes, c.ridMap), c.dest,
                                    CopyBackground(src.background, c.ridMap), src.layout))
  }

  /** A copied shape keeps every paragraph's text, so it holds the marker exactly when the original does. */
  lemma CopiedShapeKeepsText(sh: Shape, ridMap: map<RId, RId>, marker: string)
    ensures var c := CopiedShape(sh, ridMap);
      c.textFrame.Some? == sh.textFrame.Some? &&
      (sh.textFrame.Some? ==>
         var f, g := sh.textFrame.value, c.textFrame.value;
         |g| == |f| && forall q :: 0 <= q < |f| ==> ParagraphText(g[q]) == ParagraphText(f[q])) &&
      (ShapeHasMarker(c, marker) <==> ShapeHasMarker(sh, marker))
  {
    if sh.textFrame.Some? {
      var f := sh.textFrame.value;
      var g := RewriteFrame(f, ridMap);
      forall q | 0 <= q < |f| ensures ParagraphText(g[q]) == ParagraphText(f[q]) {
        assert RunTexts(g[q].runs) == RunTexts(f[q].runs);
      }
    }
  }

  /**
   * A clone has the source's layout and as many shapes, in the same order,
   * each the source shape's copy with the same texts; so it holds the marker
   * exactly when the source does.
   */
  lemma CloneKeepsText(src: SlideValue, relate: Relate, marker: string)
    requires CloneOf(src, relate).Some?
    ensures var v := CloneOf(src, relate).value;
      v.layout == src.layout && |v.shapes| == |src.shapes| &&
      (forall k :: 0 <= k < |src.shapes| ==>
         v.shapes[k].textFrame.Some? == src.shapes[k].textFrame.Some? &&
         (src.shapes[k].textFrame.Some? ==>
            var f, g := src.shapes[k].textFrame.value, v.shapes[k].textFrame.value;
            |g| == |f| && forall q :: 0 <= q < |f| ==> ParagraphText(g[q]) == ParagraphText(f[q]))) &&
      (SlideHasMarker(v.shapes, marker) <==> SlideHasMarker(src.shapes, marker))
  {
    var c := CopyRels(src.rels, InitialCopy(src.layout), relate).value;
    var v := CloneOf(src, relate).value;
    assert v.shapes == CopyShapes(src.shapes, c.ridMap);
    forall k | 0 <= k < |src.shapes|
      ensures v.shapes[k] == CopiedShape(src.shapes[k], c.ridMap)
      ensures ShapeHasMarker(v.shapes[k], marker) == ShapeHasMarker(src.shapes[k], marker)
    {
      CopiedShapeKeepsText(src.shapes[k], c.ridMap, marker);
    }
    forall k | 0 <= k < |src.shapes| ensures
         v.shapes[k].textFrame.Some? == src.shapes[k].textFrame.Some? &&
         (src.shapes[k].textFrame.Some? ==>
            var f, g := src.shapes[k].textFrame.value, v.shapes[k].textFrame.value;
            |g| == |f| && forall q :: 0 <= q < |f| ==> ParagraphText(g[q]) == ParagraphText(f[q]))
    {
      CopiedShapeKeepsText(src.shapes[k], c.ridMap, marker);
    }
  }

  /**
   * The relationship loop of `duplicate_slide_with_images` on the new slide
   * `s`: it runs CopyRels from `s`'s own table and an empty map, and fails
   * exactly when CopyRels does; only `s`'s table changes.
   */
  method CopyRelationships(s: Slide, source: Slide, relate: Relate) returns (ridMap: map<RId, RId>, ok: bool)
    requires s != source
    modifies s
    ensures ok == CopyRels(source.rels, RelCopy(map[], old(s.rels)), relate).Some?
    ensures ok ==> CopyRels(source.rels, RelCopy(map[], old(s.rels)), relate) == Some(RelCopy(ridMap, s.rels))
    ensures s.shapes == old(s.shapes) && s.background == old(s.background)
  {
    ghost var init := RelCopy(map[], s.rels);
    ridMap := map[];
    var i := 0;
    while i < |source.rels|
      invariant 0 <= i <= |source.rels|
      invariant CopyRels(source.rels[..i], init, relate) == Some(RelCopy(ridMap, s.rels))
      invariant s.shapes == old(s.shapes) && s.background == old(s.background)
    {
      var e := source.rels[i];
      assert source.rels[..i + 1][..i] == source.rels[..i];
      if !IsStructural(e.rel.relType) {
        var newRid := s.RelateTo(e.rel, relate);
        if newRid.None? {
          if e.rel.isExternal {
            CopyFailurePersists(source.rels, i + 1, init, relate);
            return ridMap, false;
          }
        } else {
          ridMap := ridMap[e.rId := newRid.value];
        }
      }
      i := i + 1;
    }
    assert source.rels[..i] == source.rels;
    ok := true;
  }

  /**
   * The shape loop of `duplicate_slide_with_images`: the copy of every source
   * shape, in order, is appended to the shapes of `s`.
   */
  method CopyShapesInto(s: Slide, source: Slide, ridMap: map<RId, RId>)
    requires s != source
    modifies s
    ensures s.shapes == old(s.shapes) + CopyShapes(source.shapes, ridMap)
    ensures s.rels == old(s.rels) && s.background == old(s.background)
  {
    var i := 0;
    while i < |source.shapes|
      invariant 0 <= i <= |source.shapes|
      invariant s.shapes == old(s.shapes) + CopyShapes(source.shapes[..i], ridMap)
      invariant s.rels == old(s.rels) && s.background == old(s.background)
    {
      var copy := CopyShape(source.shapes[i], ridMap);
      // insert_element_before(copy, "p:extLst"): after every shape already there
      s.shapes := s.shapes + [copy];
      assert CopyShapes(source.shapes[..i + 1], ridMap) == CopyShapes(source.shapes[..i], ridMap) + [copy];
      i := i + 1;
    }
    assert source.shapes[..i] == source.shapes;
  }

  /**
   * `duplicate_slide_with_images`: a new slide, appended last, whose value is
   * CloneOf(source); when an external relationship cannot be copied the clone
   * fails with the new slide already appended and emptied of layout shapes.
   * The source slide is not changed.
   */
  method DuplicateSlide(prs: Presentation, source: Slide, relate: Relate) returns (s: Slide, ok: bool)
    modifies prs
    ensures fresh(s)
    ensures prs.slides == old(prs.slides) + [s]
    ensures ok == CloneOf(source.Value(), relate).Some?
    ensures ok ==> s.Value() == CloneOf(source.Value(), relate).value
    ensures !ok ==> s.shapes == [] && s.layout == source.layout
  {
    s := prs.AddSlide(source.layout);
    // Strip the shapes the layout put on the new slide.
    while |s.shapes| > 0
      invariant prs.slides == old(prs.slides) + [s]
      invariant s.rels == NewSlideValue(source.layout).rels && s.background.None? && s.layout == source.layout
      decreases |s.shapes|
    {
      s.shapes := s.shapes[1..];
    }
    var ridMap;
    ridMap, ok := CopyRelationships(s, source, relate);
    if !ok {
      return;
    }
    CopyShapesInto(s, source, ridMap);
    if source.background.Some? {
      var bg := RewriteReferences(source.background.value, BACKGROUND_SUFFIXES, ridMap);
      s.background := Some(bg);
    }
  }
}
