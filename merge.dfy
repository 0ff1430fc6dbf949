/**
 * The mail-merge driver shared by the command-line script and the web
 * back end: find the template slides, append one personalised clone per
 * (name, template) pair, names outermost, then delete the templates from the
 * highest index down.
 */
module Merge {
  import opened Wrappers
  import opened Package
  import opened Scanner
  import opened Substitution
  import opened Cloner
  import opened SlideList

  /**
   * How a merge ends: no slide holds the marker; an external relationship of
   * a template could not be copied (the exception escapes); or the merge ran
   * to the end, with the names whose clones had no marker to replace.
   */
  datatype Outcome = NoTemplate | RelateFailed | Merged(unreplaced: seq<string>)

  /** The slides that hold the marker, in list order. */
  function TemplatesOf(vs: seq<SlideValue>, marker: string): seq<SlideValue>
    decreases |vs|
  {
    if |vs| == 0 then []
    else TemplatesOf(vs[..|vs| - 1], marker)
         + (if SlideHasMarker(vs[|vs| - 1].shapes, marker) then [vs[|vs| - 1]] else [])
  }

  /** The slides that do not hold the marker, in list order. */
  function NonTemplates(vs: seq<SlideValue>, marker: string): seq<SlideValue>
    decreases |vs|
  {
    if |vs| == 0 then []
    else NonTemplates(vs[..|vs| - 1], marker)
         + (if SlideHasMarker(vs[|vs| - 1].shapes, marker) then [] else [vs[|vs| - 1]])
  }

  predicate AllClonable(ts: seq<SlideValue>, relate: Relate)
  {
    forall j :: 0 <= j < |ts| ==> CloneOf(ts[j], relate).Some?
  }

  /** The clone of each template, before any substitution. */
  function CloneValues(ts: seq<SlideValue>, relate: Relate): (cs: seq<SlideValue>)
    requires AllClonable(ts, relate)
  {
    seq(|ts|, j requires 0 <= j < |ts| => CloneOf(ts[j], relate).value)
  }

  /** A clone with the marker replaced by `name`. */
  function Personalise(c: SlideValue, name: string, marker: string): SlideValue
  {
    c.(shapes := SubstituteShapes(c.shapes, name, marker))
  }

  /** Every clone personalised for one name, in template order. */
  function ClonesForName(cs: seq<SlideValue>, name: string, marker: string): seq<SlideValue>
  {
    seq(|cs|, j requires 0 <= j < |cs| => Personalise(cs[j], name, marker))
  }

  /** The personalised clones for every name, names outermost. */
  function Clones(cs: seq<SlideValue>, names: seq<string>, marker: string): seq<SlideValue>
    decreases |names|
  {
    if |names| == 0 then []
    else Clones(cs, names[..|names| - 1], marker) + ClonesForName(cs, names[|names| - 1], marker)
  }

  /**
   * The slide list a completed merge leaves: the slides without the marker,
   * in their order, followed by the personalised clones (none when there are
   * no names).
   */
  function MergedValues(vs: seq<SlideValue>, names: seq<string>, marker: string, relate: Relate): seq<SlideValue>
    requires |names| > 0 ==> AllClonable(TemplatesOf(vs, marker), relate)
  {
    NonTemplates(vs, marker)
      + (if |names| == 0 then [] else Clones(CloneValues(TemplatesOf(vs, marker), relate), names, marker))
  }

  // ---------------------------------------------------------------------------
  // Properties of the specification
  // ---------------------------------------------------------------------------

  /**
   * The templates are exactly the slides at the template indices, in the
   * same order.
   */
  lemma {:induction false} TemplatesAtIndices(vs: seq<SlideValue>, marker: string)
    ensures var ti := TemplateIndices(vs, marker);
      |TemplatesOf(vs, marker)| == |ti| &&
      forall j :: 0 <= j < |ti| ==> ti[j] < |vs| && TemplatesOf(vs, marker)[j] == vs[ti[j]]
    decreases |vs|
  {
    if |vs| > 0 {
      var pre := vs[..|vs| - 1];
      TemplatesAtIndices(pre, marker);
      var tp := TemplateIndices(pre, marker);
      forall j | 0 <= j < |tp| ensures tp[j] < |pre| && vs[tp[j]] == pre[tp[j]] { }
    }
  }

  /** Every template holds the marker. */
  lemma TemplatesHaveMarker(vs: seq<SlideValue>, marker: string)
    ensures forall j :: 0 <= j < |TemplatesOf(vs, marker)| ==> SlideHasMarker(TemplatesOf(vs, marker)[j].shapes, marker)
  {
    TemplatesAtIndices(vs, marker);
    TemplateIndicesExact(vs, marker);
    var ti := TemplateIndices(vs, marker);
    forall j | 0 <= j < |TemplatesOf(vs, marker)| ensures SlideHasMarker(TemplatesOf(vs, marker)[j].shapes, marker) {
      assert ti[j] in ti;
    }
  }

  /** No slide left after dropping the templates holds the marker. */
  lemma {:induction false} NonTemplatesLackMarker(vs: seq<SlideValue>, marker: string)
    ensures forall j :: 0 <= j < |NonTemplates(vs, marker)| ==> !SlideHasMarker(NonTemplates(vs, marker)[j].shapes, marker)
    decreases |vs|
  {
    if |vs| > 0 {
      NonTemplatesLackMarker(vs[..|vs| - 1], marker);
    }
  }

  /** Every slide is a template or a non-template. */
  lemma {:induction false} TemplatesPartition(vs: seq<SlideValue>, marker: string)
    ensures |TemplatesOf(vs, marker)| + |NonTemplates(vs, marker)| == |vs|
    decreases |vs|
  {
    if |vs| > 0 {
      TemplatesPartition(vs[..|vs| - 1], marker);
    }
  }

  /** Dropping the template positions leaves exactly the non-templates, in order. */
  lemma {:induction false} DropTemplates(vs: seq<SlideValue>, marker: string)
    ensures Drop(vs, TemplateIndices(vs, marker)) == NonTemplates(vs, marker)
    decreases |vs|
  {
    if |vs| > 0 {
      var n := |vs| - 1;
      var pre := vs[..n];
      DropTemplates(pre, marker);
      TemplateIndicesExact(vs, marker);
      TemplateIndicesExact(pre, marker);
      forall x | 0 <= x < |pre|
        ensures x in TemplateIndices(vs, marker) <==> x in TemplateIndices(pre, marker)
      {
        assert pre[x] == vs[x];
      }
      DropSameBelow(pre, TemplateIndices(vs, marker), TemplateIndices(pre, marker));
    }
  }

  lemma Distribute(n: nat, t: nat)
    ensures (n + 1) * t == n * t + t
  {
  }

  lemma {:induction false} ClonesLength(cs: seq<SlideValue>, names: seq<string>, marker: string)
    ensures |Clones(cs, names, marker)| == |names| * |cs|
    decreases |names|
  {
    if |names| > 0 {
      var n := |names| - 1;
      ClonesLength(cs, names[..n], marker);
      Distribute(n, |cs|);
    }
  }

  /** Adding a name appends that name's batch of clones. */
  lemma ClonesSnoc(cs: seq<SlideValue>, names: seq<string>, marker: string, i: nat)
    requires i < |names|
    ensures Clones(cs, names[..i + 1], marker) == Clones(cs, names[..i], marker) + ClonesForName(cs, names[i], marker)
  {
    assert names[..i + 1][..i] == names[..i] && names[..i + 1][i] == names[i];
  }

  /** The clones for the first m names are a prefix of the clones for all names. */
  lemma {:induction false} ClonesPrefix(cs: seq<SlideValue>, names: seq<string>, marker: string, m: nat)
    requires m <= |names|
    ensures Clones(cs, names[..m], marker) <= Clones(cs, names, marker)
    decreases |names|
  {
    if m < |names| {
      var n := |names| - 1;
      assert names[..n][..m] == names[..m];
      ClonesPrefix(cs, names[..n], marker, m);
    } else {
      assert names[..m] == names;
    }
  }

  /** The clone at k * |cs| + j is clone j personalised for name k. */
  lemma ClonesAt(cs: seq<SlideValue>, names: seq<string>, marker: string, k: nat, j: nat)
    requires k < |names| && j < |cs|
    ensures k * |cs| + j < |Clones(cs, names, marker)|
    ensures Clones(cs, names, marker)[k * |cs| + j] == Personalise(cs[j], names[k], marker)
  {
    var before := Clones(cs, names[..k], marker);
    var batch := ClonesForName(cs, names[k], marker);
    ClonesLength(cs, names[..k], marker);
    ClonesSnoc(cs, names, marker, k);
    ClonesPrefix(cs, names, marker, k + 1);
    assert (before + batch)[|before| + j] == batch[j];
  }

  /**
   * Each personalised clone keeps its template's layout, relationships and
   * background, and, when the template holds the marker, its shapes are the
   * two-tier substitution of the clone's shapes.
   */
  lemma PersonaliseKeeps(t: SlideValue, name: string, marker: string, relate: Relate)
    requires CloneOf(t, relate).Some?
    ensures var c := CloneOf(t, relate).value;
      var p := Personalise(c, name, marker);
      p.layout == t.layout && p.rels == c.rels && p.background == c.background &&
      |p.shapes| == |t.shapes| && (SlideHasMarker(c.shapes, marker) <==> SlideHasMarker(t.shapes, marker))
  {
    CloneKeepsText(t, relate, marker);
  }

  /**
   * With N names and T templates among S slides a completed merge leaves
   * S - T + T * N slides.
   */
  lemma MergedCount(vs: seq<SlideValue>, names: seq<string>, marker: string, relate: Relate)
    requires |names| > 0 ==> AllClonable(TemplatesOf(vs, marker), relate)
    ensures var t := |TemplatesOf(vs, marker)|;
      |MergedValues(vs, names, marker, relate)| == |vs| - t + |names| * t
  {
    TemplatesPartition(vs, marker);
    if |names| > 0 {
      var cs := CloneValues(TemplatesOf(vs, marker), relate);
      assert |cs| == |TemplatesOf(vs, marker)|;
      ClonesLength(cs, names, marker);
    }
  }

  /**
   * The first S - T slides of a completed merge are the originals at the
   * positions that are not template indices, in their order, and none of
   * them holds the marker.
   */
  lemma MergedKeepsOthers(vs: seq<SlideValue>, names: seq<string>, marker: string, relate: Relate)
    requires |names| > 0 ==> AllClonable(TemplatesOf(vs, marker), relate)
    ensures var rest := |vs| - |TemplatesOf(vs, marker)|;
      var l := MergedValues(vs, names, marker, relate);
      0 <= rest <= |l| &&
      l[..rest] == Drop(vs, TemplateIndices(vs, marker)) &&
      forall i :: 0 <= i < rest ==> !SlideHasMarker(l[i].shapes, marker)
  {
    TemplatesPartition(vs, marker);
    NonTemplatesLackMarker(vs, marker);
    DropTemplates(vs, marker);
    var l := MergedValues(vs, names, marker, relate);
    assert l[..|NonTemplates(vs, marker)|] == NonTemplates(vs, marker);
  }

  lemma {:induction false} ValuesAppend(a: seq<Slide>, b: seq<Slide>)
    ensures Values(a + b) == Values(a) + Values(b)
  {
    var l, r := Values(a + b), Values(a) + Values(b);
    forall k | 0 <= k < |a + b| ensures l[k] == r[k] {
      if k < |a| { } else { assert (a + b)[k] == b[k - |a|]; }
    }
  }

  /** Deleting entry i of the slide list deletes entry i of its values. */
  lemma ValuesDeleteAt(ss: seq<Slide>, i: nat)
    requires i < |ss|
    ensures Values(DeleteAt(ss, i)) == DeleteAt(Values(ss), i)
  {
    ValuesAppend(ss[..i], ss[i + 1..]);
    assert Values(ss[..i]) == Values(ss)[..i];
    assert Values(ss[i + 1..]) == Values(ss)[i + 1..];
  }

  /** One more clonable template extends the clonable prefix and its personalised clones by one. */
  lemma ClonableSnoc(tv: seq<SlideValue>, j: nat, name: string, marker: string, relate: Relate)
    requires j < |tv| && AllClonable(tv[..j], relate) && CloneOf(tv[j], relate).Some?
    ensures AllClonable(tv[..j + 1], relate)
    ensures ClonesForName(CloneValues(tv[..j + 1], relate), name, marker)
            == ClonesForName(CloneValues(tv[..j], relate), name, marker)
               + [Personalise(CloneOf(tv[j], relate).value, name, marker)]
  {
    var upto := tv[..j + 1];
    assert upto[..j] == tv[..j] && upto[j] == tv[j];
    forall x | 0 <= x < j + 1 ensures CloneOf(upto[x], relate).Some? {
      if x < j { assert upto[x] == tv[..j][x]; }
    }
  }

  /**
   * One step of the inner loop: clone `template` onto the end of the list and
   * replace the marker in the clone by `name`; `found` tells whether the
   * clone had a marker to replace, which is exactly when the template did.
   */
  method AppendClone(prs: Presentation, template: Slide, name: string, marker: string, relate: Relate)
    returns (ok: bool, found: bool)
    modifies prs
    ensures ok == CloneOf(old(template.Value()), relate).Some?
    ensures ok ==> Values(prs.slides) == old(Values(prs.slides)) + [Personalise(CloneOf(old(template.Value()), relate).value, name, marker)]
    ensures ok ==> found == SlideHasMarker(old(template.shapes), marker)
  {
    ghost var before := prs.slides;
    ghost var v := template.Value();
    var s;
    s, ok := DuplicateSlide(prs, template, relate);
    if !ok {
      return false, false;
    }
    ghost var c := CloneOf(v, relate).value;
    assert SlideHasMarker(c.shapes, marker) == SlideHasMarker(template.shapes, marker) by {
      CloneKeepsText(v, relate, marker);
    }
    found := ReplaceMarkerInSlide(s, name, marker);
    ValuesAppend(before, [s]);
  }

  /**
   * The inner loop over the templates for one name: a personalised clone of
   * each template is appended in template order, stopping at the first
   * template whose clone fails; `missed` holds the name once for each clone
   * that had no marker to replace.
   */
  method AppendClones(prs: Presentation, templates: seq<Slide>, ghost tv: seq<SlideValue>,
                      name: string, marker: string, relate: Relate)
    returns (ok: bool, missed: seq<string>)
    requires Values(templates) == tv
    modifies prs
    ensures ok == AllClonable(tv, relate)
    ensures ok ==> Values(prs.slides) == old(Values(prs.slides)) + ClonesForName(CloneValues(tv, relate), name, marker)
    ensures ok ==> (missed == [] <==> forall j :: 0 <= j < |tv| ==> SlideHasMarker(tv[j].shapes, marker))
  {
    ghost var v0 := Values(prs.slides);
    missed := [];
    var j := 0;
    while j < |templates|
      invariant 0 <= j <= |templates|
      invariant AllClonable(tv[..j], relate)
      invariant Values(prs.slides) == v0 + ClonesForName(CloneValues(tv[..j], relate), name, marker)
      invariant missed == [] <==> forall x :: 0 <= x < j ==> SlideHasMarker(tv[x].shapes, marker)
    {
      assert templates[j].Value() == tv[j];
      var cloned, found := AppendClone(prs, templates[j], name, marker, relate);
      if !cloned {
        return false, missed;
      }
      ClonableSnoc(tv, j, name, marker, relate);
      if !found {
        missed := missed + [name];
      }
      j := j + 1;
    }
    assert tv[..j] == tv;
    ok := true;
  }

  /** `for i in sorted(template_indices, reverse=True): delete_slide(prs, i)`. */
  method DeleteTemplates(prs: Presentation, indices: seq<nat>)
    modifies prs
    ensures Values(prs.slides) == DeleteAll(old(Values(prs.slides)), Reverse(indices))
  {
    var descending := Reverse(indices);
    var d := 0;
    while d < |descending|
      invariant 0 <= d <= |descending|
      invariant DeleteAll(Values(prs.slides), descending[d..]) == DeleteAll(old(Values(prs.slides)), descending)
    {
      assert descending[d..][1..] == descending[d + 1..];
      if descending[d] < |prs.slides| {
        ValuesDeleteAt(prs.slides, descending[d]);
      }
      var _ := DeleteSlide(prs, descending[d]);
      d := d + 1;
    }
  }

  /** The list after round i of the outer loop: the clones for the first i + 1 names after the original slides. */
  lemma RoundAppended(v0: seq<SlideValue>, prev: seq<SlideValue>, cs: seq<SlideValue>,
                      names: seq<string>, i: nat, marker: string)
    requires i < |names|
    requires i == 0 ==> prev == v0
    requires i > 0 ==> prev == v0 + Clones(cs, names[..i], marker)
    ensures prev + ClonesForName(cs, names[i], marker) == v0 + Clones(cs, names[..i + 1], marker)
  {
    ClonesSnoc(cs, names, marker, i);
    if i == 0 {
      assert names[..0] == [];
    }
  }

  /**
   * The nested loops: for each name in turn, one personalised clone of every
   * template; the first clone that fails aborts the loops.
   */
  method AppendAllClones(prs: Presentation, templates: seq<Slide>, ghost tv: seq<SlideValue>,
                         names: seq<string>, marker: string, relate: Relate)
    returns (ok: bool, unreplaced: seq<string>)
    requires Values(templates) == tv
    modifies prs
    ensures ok == (|names| == 0 || AllClonable(tv, relate))
    ensures ok && |names| > 0 ==> Values(prs.slides) == old(Values(prs.slides)) + Clones(CloneValues(tv, relate), names, marker)
    ensures ok && |names| == 0 ==> Values(prs.slides) == old(Values(prs.slides))
    ensures ok ==> ((forall j :: 0 <= j < |tv| ==> SlideHasMarker(tv[j].shapes, marker)) ==> unreplaced == [])
  {
    ghost var v0 := Values(prs.slides);
    unreplaced := [];
    var i := 0;
    while i < |names|
      invariant 0 <= i <= |names|
      invariant Values(templates) == tv
      invariant i > 0 ==> AllClonable(tv, relate)
      invariant i == 0 ==> Values(prs.slides) == v0
      invariant i > 0 ==> Values(prs.slides) == v0 + Clones(CloneValues(tv, relate), names[..i], marker)
      invariant (forall j :: 0 <= j < |tv| ==> SlideHasMarker(tv[j].shapes, marker)) ==> unreplaced == []
    {
      ghost var prev := Values(prs.slides);
      var cloned, missed := AppendClones(prs, templates, tv, names[i], marker, relate);
      if !cloned {
        return false, unreplaced;
      }
      RoundAppended(v0, prev, CloneValues(tv, relate), names, i, marker);
      unreplaced := unreplaced + missed;
      i := i + 1;
    }
    assert names[..|names|] == names;
    ok := true;
  }

  /**
   * The merge loop of `main()` and `process_presentation`. With no template
   * nothing changes. Otherwise clone after clone is appended, names
   * outermost; a template whose external relationship cannot be copied
   * aborts the merge; a completed merge leaves the non-templates followed by
   * the personalised clones, and every clone had a marker to replace.
   */
  method MergeSlides(prs: Presentation, names: seq<string>, marker: string, relate: Relate)
    returns (outcome: Outcome)
    modifies prs
    ensures var ts := TemplatesOf(old(Values(prs.slides)), marker);
      (outcome.NoTemplate? <==> ts == []) &&
      (outcome.RelateFailed? <==> ts != [] && |names| > 0 && !AllClonable(ts, relate))
    ensures outcome.NoTemplate? ==> prs.slides == old(prs.slides)
    ensures outcome.Merged? ==>
      var v0 := old(Values(prs.slides));
      outcome.unreplaced == [] &&
      (|names| > 0 ==> AllClonable(TemplatesOf(v0, marker), relate)) &&
      Values(prs.slides) == MergedValues(v0, names, marker, relate)
  {
    ghost var v0 := Values(prs.slides);
    var indices := GetTemplateSlideIndices(prs, marker);
    TemplatesAtIndices(v0, marker);
    ghost var tv := TemplatesOf(v0, marker);
    if |indices| == 0 {
      return NoTemplate;
    }
    var slides := prs.slides;
    var templates := seq(|indices|, j requires 0 <= j < |indices| => slides[indices[j]]);
    assert Values(templates) == tv;
    TemplatesHaveMarker(v0, marker);

    var ok, unreplaced := AppendAllClones(prs, templates, tv, names, marker, relate);
    if !ok {
      return RelateFailed;
    }
    ghost var cs := if |names| == 0 then [] else Clones(CloneValues(tv, relate), names, marker);
    assert Values(prs.slides) == v0 + cs;

    DeleteTemplates(prs, indices);
    forall x | x in indices ensures x < |v0| {
      var a :| 0 <= a < |indices| && indices[a] == x;
    }
    DeleteDescending(v0 + cs, indices);
    DropAppend(v0, cs, indices);
    DropTemplates(v0, marker);
    return Merged(unreplaced);
  }
}
