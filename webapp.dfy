/**
 * The web back end's own logic: checking an upload request, cleaning the
 * names text, and running the merge with the fixed marker.
 */
module WebApp {
  import opened Text
  import opened Package
  import opened Cloner
  import opened Merge

  /** The placeholder the web back end substitutes. */
  const MARKER := "{{NOMBRE}}"

  const EXTENSION_DETAIL := "Solo se aceptan archivos .pptx o .ppt"
  const NAMES_DETAIL := "Debe proporcionar al menos un nombre"

  // ---------------------------------------------------------------------------
  // Names cleaning
  // ---------------------------------------------------------------------------

  /** `[line.strip() for line in lines if line.strip()]`. */
  function CleanLines(lines: seq<string>): seq<string>
    decreases |lines|
  {
    if |lines| == 0 then []
    else
      var t := Strip(lines[0]);
      (if |t| == 0 then [] else [t]) + CleanLines(lines[1..])
  }

  /** The names list built from the form field: its lines, stripped, blank ones dropped. */
  function CleanNames(text: string): seq<string>
  {
    CleanLines(SplitLines(text))
  }

  /** Cleaning works line by line: order and duplicates are kept. */
  lemma {:induction false} CleanLinesAppend(a: seq<string>, b: seq<string>)
    ensures CleanLines(a + b) == CleanLines(a) + CleanLines(b)
    decreases |a|
  {
    if |a| > 0 {
      assert (a + b)[1..] == a[1..] + b;
      CleanLinesAppend(a[1..], b);
    } else {
      assert a + b == b;
    }
  }

  /**
   * Every name is the stripped form of some line and is non-empty and
   * already stripped; every line that is not blank contributes its stripped
   * form.
   */
  lemma {:induction false} CleanLinesExact(lines: seq<string>)
    ensures forall k :: 0 <= k < |CleanLines(lines)| ==>
              |CleanLines(lines)[k]| > 0 && Strip(CleanLines(lines)[k]) == CleanLines(lines)[k] &&
              exists i :: 0 <= i < |lines| && CleanLines(lines)[k] == Strip(lines[i])
    ensures forall i :: 0 <= i < |lines| && |Strip(lines[i])| > 0 ==> Strip(lines[i]) in CleanLines(lines)
    decreases |lines|
  {
    if |lines| > 0 {
      var rest := lines[1..];
      CleanLinesExact(rest);
      var t := Strip(lines[0]);
      var r := CleanLines(lines);
      var head := if |t| == 0 then [] else [t];
      assert r == head + CleanLines(rest);
      StripIdempotent(lines[0]);
      forall k | 0 <= k < |r|
        ensures |r[k]| > 0 && Strip(r[k]) == r[k] && exists i :: 0 <= i < |lines| && r[k] == Strip(lines[i])
      {
        if k < |head| {
          assert r[k] == Strip(lines[0]);
        } else {
          var k' := k - |head|;
          assert r[k] == CleanLines(rest)[k'];
          var i :| 0 <= i < |rest| && CleanLines(rest)[k'] == Strip(rest[i]);
          assert rest[i] == lines[i + 1];
        }
      }
      forall i | 0 <= i < |lines| && |Strip(lines[i])| > 0 ensures Strip(lines[i]) in r {
        if i > 0 {
          assert lines[i] == rest[i - 1];
        }
      }
    }
  }

  lemma {:induction false} CleanLinesNoNewline(lines: seq<string>)
    requires forall i :: 0 <= i < |lines| ==> '\n' !in lines[i]
    ensures forall k :: 0 <= k < |CleanLines(lines)| ==> '\n' !in CleanLines(lines)[k]
    decreases |lines|
  {
    if |lines| > 0 {
      CleanLinesNoNewline(lines[1..]);
      StripNoNewline(lines[0]);
    }
  }

  lemma {:induction false} CleanLinesOfClean(lines: seq<string>)
    requires forall i :: 0 <= i < |lines| ==> |lines[i]| > 0 && Strip(lines[i]) == lines[i]
    ensures CleanLines(lines) == lines
    decreases |lines|
  {
    if |lines| > 0 {
      CleanLinesOfClean(lines[1..]);
      assert lines == [lines[0]] + lines[1..];
    }
  }

  /**
   * Cleaning is idempotent: writing the cleaned names back one per line and
   * cleaning again gives the same list.
   */
  lemma CleanNamesIdempotent(text: string)
    ensures CleanNames(JoinLines(CleanNames(text))) == CleanNames(text)
  {
    var names := CleanNames(text);
    CleanLinesExact(SplitLines(text));
    CleanLinesNoNewline(SplitLines(text));
    if |names| == 0 {
      assert SplitLines("") == [""];
    } else {
      JoinSplitRoundTrip(names);
      CleanLinesOfClean(names);
    }
  }

  // ---------------------------------------------------------------------------
  // Request validation
  // ---------------------------------------------------------------------------

  predicate AcceptedExtension(filename: string)
  {
    EndsWith(filename, ".pptx") || EndsWith(filename, ".ppt")
  }

  datatype Validation = BadExtension | NoNames | Valid(names: seq<string>)

  /**
   * The two checks of `process_slides`, in order: the file name's extension,
   * then a non-empty names list.
   */
  function Validate(filename: string, namesText: string): (v: Validation)
    ensures v.BadExtension? <==> !AcceptedExtension(filename)
    ensures v.NoNames? <==> AcceptedExtension(filename) && |CleanNames(namesText)| == 0
    ensures v.Valid? ==> v.names == CleanNames(namesText) && |v.names| > 0
  {
    if !AcceptedExtension(filename) then BadExtension
    else
      var names := CleanNames(namesText);
      if |names| == 0 then NoNames else Valid(names)
  }

  // ---------------------------------------------------------------------------
  // Processing
  // ---------------------------------------------------------------------------

  datatype Failure = MarkerNotFound | CopyFailed

  datatype Processed = Saved | Failed(reason: Failure)

  /**
   * `process_presentation` on the loaded presentation: the merge with the
   * fixed marker; no template slide is an error and leaves the presentation
   * as it was (so nothing is saved).
   */
  method ProcessPresentation(prs: Presentation, names: seq<string>, relate: Relate) returns (r: Processed)
    modifies prs
    ensures var ts := TemplatesOf(old(Values(prs.slides)), MARKER);
      (r == Failed(MarkerNotFound) <==> ts == []) &&
      (r == Failed(CopyFailed) <==> ts != [] && |names| > 0 && !AllClonable(ts, relate))
    ensures r == Failed(MarkerNotFound) ==> prs.slides == old(prs.slides)
    ensures r.Saved? ==>
      var v0 := old(Values(prs.slides));
      (|names| > 0 ==> AllClonable(TemplatesOf(v0, MARKER), relate)) &&
      Values(prs.slides) == MergedValues(v0, names, MARKER, relate)
  {
    var outcome := MergeSlides(prs, names, MARKER, relate);
    match outcome
    case NoTemplate => r := Failed(MarkerNotFound);
    case RelateFailed => r := Failed(CopyFailed);
    case Merged(_) => r := Saved;
  }

  datatype Response = Success(namesCount: nat) | BadRequest(detail: string) | ServerError(reason: Failure)

  /**
   * `process_slides`: both checks come before any processing and a failed
   * check leaves the presentation untouched; a processing error becomes a
   * server error; success reports the number of names.
   */
  method ProcessSlides(prs: Presentation, filename: string, namesText: string, relate: Relate)
    returns (resp: Response)
    modifies prs
    ensures !AcceptedExtension(filename) ==> resp == BadRequest(EXTENSION_DETAIL) && prs.slides == old(prs.slides)
    ensures AcceptedExtension(filename) && |CleanNames(namesText)| == 0 ==>
              resp == BadRequest(NAMES_DETAIL) && prs.slides == old(prs.slides)
    ensures AcceptedExtension(filename) && |CleanNames(namesText)| > 0 ==>
      var v0 := old(Values(prs.slides));
      var ts := TemplatesOf(v0, MARKER);
      var names := CleanNames(namesText);
      resp != BadRequest(EXTENSION_DETAIL) && resp != BadRequest(NAMES_DETAIL) &&
      (resp == ServerError(MarkerNotFound) <==> ts == []) &&
      (resp == ServerError(CopyFailed) <==> ts != [] && !AllClonable(ts, relate)) &&
      (resp.Success? ==> resp.namesCount == |names| && AllClonable(ts, relate) &&
                         Values(prs.slides) == MergedValues(v0, names, MARKER, relate))
  {
    match Validate(filename, namesText)
    case BadExtension => return BadRequest(EXTENSION_DETAIL);
    case NoNames => return BadRequest(NAMES_DETAIL);
    case Valid(names) =>
      var r := ProcessPresentation(prs, names, relate);
      match r
      case Saved => resp := Success(|names|);
      case Failed(reason) => resp := ServerError(reason);
  }
}
