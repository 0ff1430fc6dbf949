/**
 * Marker substitution in a cloned slide: tier 1 replaces inside single runs,
 * tier 2 (only when tier 1 found nothing on the whole slide) rebuilds each
 * paragraph whose joined text holds the marker into its first run.
 */
module Substitution {
  import opened Wrappers
  import opened Text
  import opened Package
  import opened Scanner

  // ---------------------------------------------------------------------------
  // Tier 1: in-place replacement inside runs (`replace_marker_runs`)
  // ---------------------------------------------------------------------------

  /** A run holding the marker gets `text.replace(marker, name)`; other runs are untouched. */
  function ReplaceInRun(r: Run, name: string, marker: string): Run
  {
    if Contains(r.text, marker) then r.(text := Replace(r.text, marker, name)) else r
  }

  function ReplaceInRuns(p: Paragraph, name: string, marker: string): Paragraph
  {
    Paragraph(seq(|p.runs|, k requires 0 <= k < |p.runs| => ReplaceInRun(p.runs[k], name, marker)))
  }

  /** The text frame after tier 1. */
  function ReplaceRunsInFrame(f: TextFrame, name: string, marker: string): TextFrame
  {
    seq(|f|, k requires 0 <= k < |f| => ReplaceInRuns(f[k], name, marker))
  }

  predicate RunHasMarker(p: Paragraph, marker: string)
  {
    exists k :: 0 <= k < |p.runs| && Contains(p.runs[k].text, marker)
  }

  /** Some single run of the frame contains the whole marker. */
  predicate FrameRunHasMarker(f: TextFrame, marker: string)
  {
    exists q :: 0 <= q < |f| && RunHasMarker(f[q], marker)
  }

  /**
   * `replace_marker_runs`: every run's new text is computed from its old text;
   * `changed` says whether some run contained the marker.
   */
  method ReplaceMarkerRuns(frame: TextFrame, name: string, marker: string) returns (updated: TextFrame, changed: bool)
    ensures updated == ReplaceRunsInFrame(frame, name, marker)
    ensures changed == FrameRunHasMarker(frame, marker)
  {
    updated := frame;
    changed := false;
    var i := 0;
    while i < |updated|
      invariant 0 <= i <= |updated| == |frame|
      invariant forall q :: 0 <= q < i ==> updated[q] == ReplaceInRuns(frame[q], name, marker)
      invariant forall q :: i <= q < |frame| ==> updated[q] == frame[q]
      invariant changed == exists q :: 0 <= q < i && RunHasMarker(frame[q], marker)
    {
      var runs := updated[i].runs;
      var j := 0;
      ghost var before := changed;
      while j < |runs|
        invariant 0 <= j <= |runs| == |frame[i].runs|
        invariant forall k :: 0 <= k < j ==> runs[k] == ReplaceInRun(frame[i].runs[k], name, marker)
        invariant forall k :: j <= k < |runs| ==> runs[k] == frame[i].runs[k]
        invariant changed == (before || exists k :: 0 <= k < j && Contains(frame[i].runs[k].text, marker))
      {
        if Contains(runs[j].text, marker) {
          runs := runs[j := runs[j].(text := Replace(runs[j].text, marker, name))];
          changed := true;
        }
        j := j + 1;
      }
      assert Paragraph(runs) == ReplaceInRuns(frame[i], name, marker);
      updated := updated[i := Paragraph(runs)];
      i := i + 1;
    }
  }

  /**
   * After tier 1 the frame has the same paragraphs and runs; each run keeps its
   * properties, its text is `old.replace(marker, name)`, and a run without the
   * marker is identical to what it was.
   */
  lemma ReplaceRunsShape(f: TextFrame, name: string, marker: string)
    ensures var g := ReplaceRunsInFrame(f, name, marker);
      |g| == |f| &&
      forall q :: 0 <= q < |f| ==>
        |g[q].runs| == |f[q].runs| &&
        forall k :: 0 <= k < |f[q].runs| ==>
          g[q].runs[k].rPr == f[q].runs[k].rPr &&
          g[q].runs[k].text == Replace(f[q].runs[k].text, marker, name) &&
          (!Contains(f[q].runs[k].text, marker) ==> g[q].runs[k] == f[q].runs[k])
  {
    var g := ReplaceRunsInFrame(f, name, marker);
    forall q, k | 0 <= q < |f| && 0 <= k < |f[q].runs|
      ensures g[q].runs[k].text == Replace(f[q].runs[k].text, marker, name)
    {
      if !Contains(f[q].runs[k].text, marker) {
        ReplaceAbsent(f[q].runs[k].text, marker, name);
      }
    }
  }

  /** When no run holds the marker, tier 1 changes nothing at all. */
  lemma ReplaceRunsNoMarker(f: TextFrame, name: string, marker: string)
    requires !FrameRunHasMarker(f, marker)
    ensures ReplaceRunsInFrame(f, name, marker) == f
  {
    var g := ReplaceRunsInFrame(f, name, marker);
    forall q | 0 <= q < |f| ensures g[q] == f[q] {
      assert !RunHasMarker(f[q], marker);
      assert g[q].runs == f[q].runs;
    }
  }

  // ---------------------------------------------------------------------------
  // Tier 2: rebuilding fragmented paragraphs (`replace_marker_robust`)
  // ---------------------------------------------------------------------------

  /** `p.text = t` on a paragraph without runs: one run without properties, none for "". */
  function SetText(t: string): Paragraph
  {
    if t == "" then Paragraph([]) else Paragraph([Run(t, None)])
  }

  /**
   * A paragraph whose joined text holds the marker: the whole replaced text
   * goes into its first run (which keeps its properties) and the other runs
   * are dropped.
   */
  function RebuildParagraph(p: Paragraph, name: string, marker: string): Paragraph
  {
    var full := ParagraphText(p);
    if !Contains(full, marker) then p
    else
      var newText := Replace(full, marker, name);
      if |p.runs| > 0 then Paragraph([p.runs[0].(text := newText)]) else SetText(newText)
  }

  /** The text frame after tier 2. */
  function RebuildFrame(f: TextFrame, name: string, marker: string): TextFrame
  {
    seq(|f|, k requires 0 <= k < |f| => RebuildParagraph(f[k], name, marker))
  }

  /** Some paragraph's joined run text contains the marker. */
  predicate FrameHasMarker(f: TextFrame, marker: string)
  {
    exists q :: 0 <= q < |f| && Contains(ParagraphText(f[q]), marker)
  }

  /**
   * `replace_marker_robust`: paragraphs with the marker are rebuilt, the others
   * kept; `changed` says whether some paragraph contained the marker.
   */
  method ReplaceMarkerRobust(frame: TextFrame, name: string, marker: string) returns (updated: TextFrame, changed: bool)
    ensures updated == RebuildFrame(frame, name, marker)
    ensures changed == FrameHasMarker(frame, marker)
  {
    updated := frame;
    changed := false;
    var i := 0;
    while i < |updated|
      invariant 0 <= i <= |updated| == |frame|
      invariant forall q :: 0 <= q < i ==> updated[q] == RebuildParagraph(frame[q], name, marker)
      invariant forall q :: i <= q < |frame| ==> updated[q] == frame[q]
      invariant changed == exists q :: 0 <= q < i && Contains(ParagraphText(frame[q]), marker)
    {
      var p := updated[i];
      var full := ParagraphText(p);
      if Contains(full, marker) {
        var newText := Replace(full, marker, name);
        if |p.runs| > 0 {
          var r0 := p.runs[0];
          var runs := p.runs;
          var k := 1;
          while k < |p.runs|
            invariant 1 <= k <= |p.runs|
            invariant runs == [r0] + p.runs[k..]
          {
            runs := [r0] + runs[2..];
            k := k + 1;
          }
          runs := [runs[0].(text := newText)];
          updated := updated[i := Paragraph(runs)];
        } else {
          updated := updated[i := SetText(newText)];
        }
        changed := true;
      }
      i := i + 1;
    }
  }

  /**
   * After tier 2 a paragraph whose joined text held the marker consists of a
   * single run, the old first run's properties with the replaced joined text;
   * every other paragraph is unchanged.
   */
  lemma RebuildFrameShape(f: TextFrame, name: string, marker: string)
    ensures var g := RebuildFrame(f, name, marker);
      |g| == |f| &&
      forall q :: 0 <= q < |f| ==>
        (!Contains(ParagraphText(f[q]), marker) ==> g[q] == f[q]) &&
        (Contains(ParagraphText(f[q]), marker) && |f[q].runs| > 0 ==>
           g[q].runs == [Run(Replace(ParagraphText(f[q]), marker, name), f[q].runs[0].rPr)])
  {
  }

  /**
   * With a non-empty marker a paragraph without runs never matches, so the
   * `p.text = new_text` branch of tier 2 is never taken.
   */
  lemma NoRunsNeverMatches(p: Paragraph, marker: string)
    requires |marker| > 0 && |p.runs| == 0
    ensures !Contains(ParagraphText(p), marker)
  {
    assert ParagraphText(p) == "";
  }

  // ---------------------------------------------------------------------------
  // Whole slide (`replace_marker_in_slide`)
  // ---------------------------------------------------------------------------

  function ReplaceRunsInShape(sh: Shape, name: string, marker: string): Shape
  {
    if sh.textFrame.Some? then sh.(textFrame := Some(ReplaceRunsInFrame(sh.textFrame.value, name, marker))) else sh
  }

  function RebuildShape(sh: Shape, name: string, marker: string): Shape
  {
    if sh.textFrame.Some? then sh.(textFrame := Some(RebuildFrame(sh.textFrame.value, name, marker))) else sh
  }

  /** Some shape with a text frame has a single run holding the marker. */
  predicate SlideRunHasMarker(shapes: seq<Shape>, marker: string)
  {
    exists k :: 0 <= k < |shapes| && shapes[k].textFrame.Some? && FrameRunHasMarker(shapes[k].textFrame.value, marker)
  }

  /** Tier 1 applied to every shape with a text frame. */
  function RunsTier(shapes: seq<Shape>, name: string, marker: string): seq<Shape>
  {
    seq(|shapes|, k requires 0 <= k < |shapes| => ReplaceRunsInShape(shapes[k], name, marker))
  }

  /** Tier 2 applied to every shape with a text frame. */
  function RebuildTier(shapes: seq<Shape>, name: string, marker: string): seq<Shape>
  {
    seq(|shapes|, k requires 0 <= k < |shapes| => RebuildShape(shapes[k], name, marker))
  }

  /**
   * The shapes after `replace_marker_in_slide`: tier 1 on every shape, then
   * tier 2 on every shape only if tier 1 found the marker nowhere.
   */
  function SubstituteShapes(shapes: seq<Shape>, name: string, marker: string): seq<Shape>
  {
    var tier1 := RunsTier(shapes, name, marker);
    if SlideRunHasMarker(shapes, marker) then tier1 else RebuildTier(tier1, name, marker)
  }

  /** A run holding the marker makes its paragraph, and so its slide, hold it. */
  lemma RunMarkerInSlide(shapes: seq<Shape>, marker: string)
    requires SlideRunHasMarker(shapes, marker)
    ensures SlideHasMarker(shapes, marker)
  {
    var s :| 0 <= s < |shapes| && shapes[s].textFrame.Some? && FrameRunHasMarker(shapes[s].textFrame.value, marker);
    var f := shapes[s].textFrame.value;
    var q :| 0 <= q < |f| && RunHasMarker(f[q], marker);
    var k :| 0 <= k < |f[q].runs| && Contains(f[q].runs[k].text, marker);
    RunMarkerInParagraph(f[q].runs, k, marker);
    assert Paragraph(f[q].runs) == f[q];
    assert ShapeHasMarker(shapes[s], marker);
  }

  /**
   * Tier 2 only runs when tier 1 changed nothing, and so works on the slide
   * exactly as it was.
   */
  lemma SubstituteFallback(shapes: seq<Shape>, name: string, marker: string)
    requires !SlideRunHasMarker(shapes, marker)
    ensures RunsTier(shapes, name, marker) == shapes
    ensures SubstituteShapes(shapes, name, marker) == RebuildTier(shapes, name, marker)
  {
    var tier1 := RunsTier(shapes, name, marker);
    forall k | 0 <= k < |shapes| ensures tier1[k] == shapes[k] {
      if shapes[k].textFrame.Some? {
        ReplaceRunsNoMarker(shapes[k].textFrame.value, name, marker);
      }
    }
    assert tier1 == shapes;
  }

  /**
   * The first loop of `replace_marker_in_slide`: tier 1 on each shape with a
   * text frame; `found` says whether some run held the marker.
   */
  method RunsPass(slide: Slide, name: string, marker: string) returns (found: bool)
    modifies slide
    ensures slide.shapes == RunsTier(old(slide.shapes), name, marker)
    ensures slide.rels == old(slide.rels) && slide.background == old(slide.background)
    ensures found == SlideRunHasMarker(old(slide.shapes), marker)
  {
    ghost var orig := slide.shapes;
    found := false;
    var i := 0;
    while i < |slide.shapes|
      invariant 0 <= i <= |slide.shapes| == |orig|
      invariant forall k :: 0 <= k < i ==> slide.shapes[k] == ReplaceRunsInShape(orig[k], name, marker)
      invariant forall k :: i <= k < |orig| ==> slide.shapes[k] == orig[k]
      invariant found == exists k :: 0 <= k < i && orig[k].textFrame.Some? && FrameRunHasMarker(orig[k].textFrame.value, marker)
      invariant slide.rels == old(slide.rels) && slide.background == old(slide.background)
    {
      var sh := slide.shapes[i];
      if sh.textFrame.Some? {
        var updated, changed := ReplaceMarkerRuns(sh.textFrame.value, name, marker);
        slide.shapes := slide.shapes[i := sh.(textFrame := Some(updated))];
        if changed {
          found := true;
        }
      }
      i := i + 1;
    }
  }

  /**
   * The fallback loop of `replace_marker_in_slide`: tier 2 on each shape with
   * a text frame; `found` says whether some paragraph held the marker.
   */
  method RebuildPass(slide: Slide, name: string, marker: string) returns (found: bool)
    modifies slide
    ensures slide.shapes == RebuildTier(old(slide.shapes), name, marker)
    ensures slide.rels == old(slide.rels) && slide.background == old(slide.background)
    ensures found == SlideHasMarker(old(slide.shapes), marker)
  {
    ghost var orig := slide.shapes;
    found := false;
    var i := 0;
    while i < |slide.shapes|
      invariant 0 <= i <= |slide.shapes| == |orig|
      invariant forall k :: 0 <= k < i ==> slide.shapes[k] == RebuildShape(orig[k], name, marker)
      invariant forall k :: i <= k < |orig| ==> slide.shapes[k] == orig[k]
      invariant found == exists k :: 0 <= k < i && ShapeHasMarker(orig[k], marker)
      invariant slide.rels == old(slide.rels) && slide.background == old(slide.background)
    {
      var sh := slide.shapes[i];
      if sh.textFrame.Some? {
        var updated, changed := ReplaceMarkerRobust(sh.textFrame.value, name, marker);
        slide.shapes := slide.shapes[i := sh.(textFrame := Some(updated))];
        if changed {
          found := true;
        }
      }
      i := i + 1;
    }
  }

  /**
   * `replace_marker_in_slide`: the slide's shapes become SubstituteShapes of
   * the old ones, nothing else changes, and the result says whether the slide
   * contained the marker.
   */
  method ReplaceMarkerInSlide(slide: Slide, name: string, marker: string) returns (found: bool)
    modifies slide
    ensures slide.shapes == SubstituteShapes(old(slide.shapes), name, marker)
    ensures slide.rels == old(slide.rels) && slide.background == old(slide.background)
    ensures found == SlideHasMarker(old(slide.shapes), marker)
  {
    ghost var orig := slide.shapes;
    found := RunsPass(slide, name, marker);
    if found {
      RunMarkerInSlide(orig, marker);
    } else {
      SubstituteFallback(orig, name, marker);
      found := RebuildPass(slide, name, marker);
    }
  }
}
