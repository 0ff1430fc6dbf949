/**
 * The part of an OOXML presentation package the merge engine touches, as
 * python-pptx exposes it: an ordered list of slides, each with a shape tree,
 * a relationship table and an optional background.
 */
module Package {
  import opened Wrappers

  /** A relationship id such as "rId3", unique within one part's table. */
  type RId = string

  /**
   * One XML element of a shape's markup: tag, attributes keyed by their
   * Clark-notation names ("{namespace}local") and child elements in order.
   */
  datatype Element = Element(tag: string, attrs: map<string, string>, children: seq<Element>)

  /** A text run: its text and its run properties (`a:rPr`), if any. */
  datatype Run = Run(text: string, rPr: Option<Element>)

  /** A paragraph of a text frame: its runs in order. */
  datatype Paragraph = Paragraph(runs: seq<Run>)

  type TextFrame = seq<Paragraph>

  /**
   * A shape: its markup other than the text, and its text frame when it has
   * one (`shape.has_text_frame`).
   */
  datatype Shape = Shape(element: Element, textFrame: Option<TextFrame>)

  /** A relationship: its type URI, its target (a URI or a part name) and whether it is external. */
  datatype Rel = Rel(relType: string, target: string, isExternal: bool)

  /** One entry of a part's relationship table. */
  datatype RelEntry = RelEntry(rId: RId, rel: Rel)

  /** A slide layout: its part name and the placeholder shapes it puts on a new slide. */
  datatype Layout = Layout(partName: string, placeholders: seq<Shape>)

  /** A snapshot of a slide: the shape children of its shape tree, its relationships, background and layout. */
  datatype SlideValue = SlideValue(shapes: seq<Shape>, rels: seq<RelEntry>, background: Option<Element>, layout: Layout)

  const RT_SLIDE_LAYOUT: string := "http://schemas.openxmlformats.org/officeDocument/2006/relationships/slideLayout"

  /** The rIds of a relationship table. */
  function RIds(rels: seq<RelEntry>): set<RId>
  {
    set k | 0 <= k < |rels| :: rels[k].rId
  }

  /**
   * The table after recording `rel` under `rid`: unchanged when `rid` is
   * already in it (relate_to handed back an existing relationship).
   */
  function AddRel(rels: seq<RelEntry>, rid: RId, rel: Rel): seq<RelEntry>
  {
    if rid in RIds(rels) then rels else rels + [RelEntry(rid, rel)]
  }

  /** Recording a relationship keeps the table's rIds unique and adds its rId. */
  lemma AddRelKeepsDistinct(rels: seq<RelEntry>, rid: RId, rel: Rel)
    requires DistinctRIds(rels)
    ensures DistinctRIds(AddRel(rels, rid, rel))
    ensures RIds(AddRel(rels, rid, rel)) == RIds(rels) + {rid}
  {
    var r := AddRel(rels, rid, rel);
    if rid !in RIds(rels) {
      assert r[|rels|].rId == rid;
      forall a | 0 <= a < |rels| ensures r[a].rId != rid {
        assert rels[a].rId in RIds(rels);
      }
      assert RIds(r) == RIds(rels) + {rid} by {
        forall x | x in RIds(r) ensures x in RIds(rels) + {rid} {
          var k :| 0 <= k < |r| && r[k].rId == x;
          if k < |rels| { assert rels[k].rId == x; }
        }
        forall x | x in RIds(rels) ensures x in RIds(r) {
          var k :| 0 <= k < |rels| && rels[k].rId == x;
          assert r[k].rId == x;
        }
      }
    }
  }

  /** A relationship table keys each rId once. */
  predicate DistinctRIds(rels: seq<RelEntry>)
  {
    forall a, b :: 0 <= a < b < |rels| ==> rels[a].rId != rels[b].rId
  }

  /**
   * What `prs.slides.add_slide(layout)` produces: the layout's placeholders on
   * the shape tree, one relationship (to the layout) and no background.
   */
  function NewSlideValue(layout: Layout): SlideValue
  {
    SlideValue(layout.placeholders, [RelEntry("rId1", Rel(RT_SLIDE_LAYOUT, layout.partName, false))], None, layout)
  }

  /** A slide part, updated in place by cloning and substitution. */
  class Slide {
    var shapes: seq<Shape>
    var rels: seq<RelEntry>
    var background: Option<Element>
    const layout: Layout

    constructor (v: SlideValue)
      ensures Value() == v
    {
      shapes := v.shapes;
      rels := v.rels;
      background := v.background;
      layout := v.layout;
    }

    function Value(): SlideValue
      reads this
    {
      SlideValue(shapes, rels, background, layout)
    }

    /**
     * `slide.part.relate_to(target, reltype)`: `relate` stands for python-pptx's
     * choice of rId, given the current table (None when it raises); a new rId
     * is recorded in the table.
     */
    method RelateTo(rel: Rel, relate: (seq<RelEntry>, Rel) -> Option<RId>) returns (rid: Option<RId>)
      modifies this
      ensures rid == relate(old(rels), rel)
      ensures rels == (if rid.Some? then AddRel(old(rels), rid.value, rel) else old(rels))
      ensures shapes == old(shapes) && background == old(background)
    {
      rid := relate(rels, rel);
      if rid.Some? {
        rels := AddRel(rels, rid.value, rel);
      }
    }
  }

  /** The values of a list of slides, in order. */
  function Values(ss: seq<Slide>): seq<SlideValue>
    reads ss
  {
    seq(|ss|, k requires 0 <= k < |ss| reads ss => ss[k].Value())
  }

  /**
   * A presentation: the slide-id list `_sldIdLst`, each entry resolved to the
   * slide part it names.
   */
  class Presentation {
    var slides: seq<Slide>

    constructor (slides: seq<Slide>)
      ensures this.slides == slides
    {
      this.slides := slides;
    }

    /** `prs.slides.add_slide(layout)`: a new slide on the layout, appended last. */
    method AddSlide(layout: Layout) returns (s: Slide)
      modifies this
      ensures fresh(s)
      ensures slides == old(slides) + [s]
      ensures s.Value() == NewSlideValue(layout)
    {
      s := new Slide(NewSlideValue(layout));
      slides := slides + [s];
    }
  }
}
