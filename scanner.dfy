/** Finding template slides: slides whose text contains the marker. */
module Scanner {
  import opened Text
  import opened Package

  /** `"".join(run.text for run in p.runs)`. */
  function ParagraphText(p: Paragraph): string
  {
    Concat(RunTexts(p.runs))
  }

  function RunTexts(runs: seq<Run>): seq<string>
  {
    seq(|runs|, k requires 0 <= k < |runs| => runs[k].text)
  }

  /**
   * The joined text of two run lists placed one after the other is the
   * joined text of the first followed by that of the second.
   */
  lemma ParagraphTextAppend(a: seq<Run>, b: seq<Run>)
    ensures ParagraphText(Paragraph(a + b)) == ParagraphText(Paragraph(a)) + ParagraphText(Paragraph(b))
  {
    assert RunTexts(a + b) == RunTexts(a) + RunTexts(b);
    ConcatAppend(RunTexts(a), RunTexts(b));
  }

  /** Some paragraph of the shape's text frame contains the marker in its joined run text. */
  predicate ShapeHasMarker(sh: Shape, marker: string)
  {
    sh.textFrame.Some? &&
    exists k :: 0 <= k < |sh.textFrame.value| && Contains(ParagraphText(sh.textFrame.value[k]), marker)
  }

  /** `slide_has_marker`: some shape with a text frame has a paragraph containing the marker. */
  predicate SlideHasMarker(shapes: seq<Shape>, marker: string)
  {
    exists k :: 0 <= k < |shapes| && ShapeHasMarker(shapes[k], marker)
  }

  /** The positions of the slides that contain the marker, in list order. */
  function TemplateIndices(vs: seq<SlideValue>, marker: string): seq<nat>
    decreases |vs|
  {
    if |vs| == 0 then []
    else TemplateIndices(vs[..|vs| - 1], marker)
         + (if SlideHasMarker(vs[|vs| - 1].shapes, marker) then [|vs| - 1] else [])
  }

  predicate StrictlyAscending(xs: seq<nat>)
  {
    forall a, b :: 0 <= a < b < |xs| ==> xs[a] < xs[b]
  }

  /**
   * The template indices are strictly ascending and are exactly the positions
   * of the slides that contain the marker.
   */
  lemma {:induction false} TemplateIndicesExact(vs: seq<SlideValue>, marker: string)
    ensures StrictlyAscending(TemplateIndices(vs, marker))
    ensures forall k :: k in TemplateIndices(vs, marker) <==> 0 <= k < |vs| && SlideHasMarker(vs[k].shapes, marker)
    decreases |vs|
  {
    if |vs| > 0 {
      var pre := vs[..|vs| - 1];
      TemplateIndicesExact(pre, marker);
      forall k | 0 <= k < |pre| ensures pre[k] == vs[k] { }
      var ti := TemplateIndices(pre, marker);
      forall a | 0 <= a < |ti| ensures ti[a] < |pre| {
        assert ti[a] in ti;
      }
    }
  }

  /** A run that contains the marker makes its paragraph contain it. */
  lemma {:induction false} RunMarkerInParagraph(runs: seq<Run>, k: nat, marker: string)
    requires k < |runs| && Contains(runs[k].text, marker)
    ensures Contains(ParagraphText(Paragraph(runs)), marker)
    decreases |runs|
  {
    var ts := RunTexts(runs);
    assert Concat(ts) == ts[0] + Concat(ts[1..]);
    if k == 0 {
      ContainsConcat(ts[0], Concat(ts[1..]), marker);
    } else {
      RunMarkerInParagraph(runs[1..], k - 1, marker);
      assert RunTexts(runs[1..]) == ts[1..];
      ContainsConcat(ts[0], Concat(ts[1..]), marker);
    }
  }

  /**
   * A marker split across two runs is detected in the paragraph although
   * neither run contains it.
   */
  lemma SplitMarkerDetected()
    ensures var p := Paragraph([Run("{{NOM", Wrappers.None), Run("BRE}}", Wrappers.None)]);
            Contains(ParagraphText(p), "{{NOMBRE}}")
            && !Contains(p.runs[0].text, "{{NOMBRE}}") && !Contains(p.runs[1].text, "{{NOMBRE}}")
  {
    var p := Paragraph([Run("{{NOM", Wrappers.None), Run("BRE}}", Wrappers.None)]);
    assert ParagraphText(p) == "{{NOMBRE}}" by {
      assert RunTexts(p.runs) == ["{{NOM", "BRE}}"];
      assert Concat(["{{NOM", "BRE}}"]) == "{{NOM" + ("BRE}}" + "");
    }
    ContainsIffOccurs(p.runs[0].text, "{{NOMBRE}}");
    ContainsIffOccurs(p.runs[1].text, "{{NOMBRE}}");
  }

  /**
   * `get_template_slide_indices`: the positions of the template slides, in
   * ascending order; the empty list when no slide has the marker.
   */
  method GetTemplateSlideIndices(prs: Package.Presentation, marker: string) returns (indices: seq<nat>)
    ensures indices == TemplateIndices(Values(prs.slides), marker)
    ensures StrictlyAscending(indices)
    ensures forall k :: k in indices <==> 0 <= k < |prs.slides| && SlideHasMarker(prs.slides[k].shapes, marker)
  {
    ghost var vs := Values(prs.slides);
    indices := [];
    var i := 0;
    while i < |prs.slides|
      invariant 0 <= i <= |prs.slides|
      invariant indices == TemplateIndices(vs[..i], marker)
    {
      assert vs[..i + 1][..i] == vs[..i];
      if SlideHasMarker(prs.slides[i].shapes, marker) {
        indices := indices + [i];
      }
      i := i + 1;
    }
    assert vs[..i] == vs;
    TemplateIndicesExact(vs, marker);
  }
}
