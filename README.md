# SlideGen merge engine in Dafny

SlideGen produces personalised PowerPoint decks. A template deck contains
one or more slides with the marker `{{NOMBRE}}`. For every name in a list,
the engine clones each template slide, names outermost and templates in deck
order. It replaces the marker in each clone with the name. Then it deletes
the original templates, highest index first. The engine is reached two ways:
the command-line script `generar_slides.py`, and the web back end's
`/api/process` endpoint (`process_slides` in `main.py`), which checks the upload and the
names first.

This project models that engine and proves properties of the model.

- `wrappers.dfy`, module `Wrappers`: `Option`.
- `text.dfy`, module `Text`: the Python string operations the engine relies
  on, with their exact semantics.
  - `in` on strings.
  - `str.replace`, including the empty-pattern case.
  - `str.endswith`.
  - `split('\n')` and its inverse join.
  - `str.strip`, with Python's whitespace set.
  - `"".join`.
- `package.dfy`, module `Package`: the part of a presentation package the
  engine touches.
  - Shapes, with their XML element and optional text frame.
  - Paragraphs and runs, where a run has text and optional `a:rPr` properties.
  - Relationship tables, as ordered rId → relationship entries.
  - Layouts and backgrounds.
  - Classes `Slide` (fields updated in place) and `Presentation` (the slide
    list).
  - `relate_to` is a method over an abstract, fallible rId-choosing function
    `relate`. It stands in for python-pptx's choice of the next free rId, and
    for the exceptions it may raise.
- `scanner.dfy`, module `Scanner`: `slide_has_marker` and
  `get_template_slide_indices`.
- `substitution.dfy`, module `Substitution`: the two substitution tiers and
  `replace_marker_in_slide`. Tier 1 works run by run. Tier 2 rebuilds a
  paragraph whose joined run text holds a marker split across runs.
- `cloner.dfy`, module `Cloner`: `duplicate_slide_with_images`.
  - Copying relationships and building the rId map.
  - Rewriting reference attributes over a copied element tree.
  - Copying shapes and the background.
  - The imperative clone, proved against the `CloneOf` specification.
- `slidelist.dfy`, module `SlideList`:
  - `delete_slide` and `move_slide` on the slide-id list;
  - deleting several positions from the highest index down.
- `merge.dfy`, module `Merge`: the merge loop shared by `main()` and
  `process_presentation`. It is proved against `MergedValues`, a
  specification of the final slide list: the non-template slides in order,
  then one personalised clone per (name, template) pair, names outermost.
- `webapp.dfy`, module `WebApp`:
  - the upload's extension check;
  - names cleaning;
  - the empty-names check;
  - `process_presentation` with its fixed marker;
  - the mapping of outcomes to a 200, 400 or 500 response.

The methods work on `Slide` and `Presentation` objects the way the Python
code works on python-pptx objects. Each method's `ensures` ties the new state
to a function of the old state, through `Slide.Value()` and
`Package.Values`. The lemmas prove what those functions promise.

## Model

| member | source | states |
|---|---|---|
| Text.Contains | generar_slides.py:19 | definition of Python's substring `in`: the marker is a contiguous piece of the text; the empty marker is in every text |
| Text.Replace | generar_slides.py:114 | definition of `str.replace`: non-overlapping occurrences replaced scanning left to right; an empty pattern inserts the replacement before every character and at the end |
| Text.EndsWith | main.py:50 | definition of `str.endswith`: the string ends with exactly the characters of the suffix |
| Text.Strip | main.py:54 | definition of `str.strip()`: leading and trailing characters of Python's whitespace set removed |
| Text.ConcatAppend | generar_slides.py:18 | `"".join` of two string lists placed one after the other is the join of the first followed by the join of the second |
| Text.ContainsIffOccurs | generar_slides.py:19 | Python's `marker in text` holds exactly when the marker occurs at some position of the text |
| Text.ContainsConcat | generar_slides.py:18-19 | a marker contained in one run's text is contained in any concatenation that includes that text |
| Text.ReplaceAbsent | generar_slides.py:113-114 | `str.replace` leaves a string without the pattern unchanged |
| Text.SplitLines | main.py:54 | `split('\n')` yields at least one piece and no piece contains a newline |
| Text.SplitJoinRoundTrip | main.py:54 | joining the pieces of `split('\n')` with newlines gives back the original text |
| Text.JoinSplitRoundTrip | main.py:54 | splitting a newline-join of at least one newline-free line gives back exactly those lines |
| Text.StripIsTrimmedSlice | main.py:54 | `strip()` returns a contiguous slice of its input that neither starts nor ends with whitespace, and whose removed prefix and suffix are all whitespace |
| Text.StripIdempotent | main.py:54 | stripping twice is the same as stripping once |
| Text.StripNoNewline | main.py:54 | stripping a newline-free string gives a newline-free string |
| Package.AddRelKeepsDistinct | generar_slides.py:57-60 | recording a relationship under an rId, new or already in the table, keeps the table's rIds distinct, and the set of rIds grows by exactly that rId |
| Package.Slide.RelateTo | generar_slides.py:57-60 | `relate_to` returns the rId chosen for the relationship, on success records the relationship under it (the table is unchanged when that rId is already there), leaves the table as it was on failure, and changes nothing else on the slide |
| Package.Presentation.AddSlide | generar_slides.py:38-39 | `add_slide` appends a fresh slide, with the layout's placeholder shapes and its layout relationship, at the end of the slide list |
| Scanner.ParagraphText | generar_slides.py:18 | definition: a paragraph's text is the concatenation of its runs' texts in run order (`"".join`); empty for a paragraph without runs |
| Scanner.ParagraphTextAppend | generar_slides.py:18 | the joined text of two run lists placed one after the other is the first's joined text followed by the second's |
| Scanner.ShapeHasMarker | generar_slides.py:16-19 | definition: a shape holds the marker when it has a text frame and the joined run text of one of its paragraphs contains the marker |
| Scanner.SlideHasMarker | generar_slides.py:13-21 | definition of `slide_has_marker`: true exactly when some shape with a text frame has a paragraph whose joined run text contains the marker; a slide without text frames never holds it |
| Scanner.TemplateIndices | generar_slides.py:24-30 | definition: the positions, in ascending order, of the slides for which `SlideHasMarker` holds |
| Scanner.TemplateIndicesExact | generar_slides.py:24-30 | the template indices are strictly ascending, and an index is among them exactly when it is a valid position whose slide holds the marker |
| Scanner.RunMarkerInParagraph | generar_slides.py:13-21 | a run whose own text holds the marker makes the paragraph's joined text hold it |
| Scanner.SplitMarkerDetected | generar_slides.py:18-19 | a marker split across two runs (`{{NOM` + `BRE}}`) is found in the paragraph although neither run contains it |
| Scanner.GetTemplateSlideIndices | generar_slides.py:24-30 | the loop returns exactly the ascending positions of the slides that hold the marker |
| Substitution.ReplaceInRun | generar_slides.py:113-115 | definition: a run whose text contains the marker gets its text replaced and keeps its properties; any other run is kept as it is |
| Substitution.ReplaceRunsInFrame | generar_slides.py:111-117 | definition of tier 1: every run of every paragraph of the frame goes through `ReplaceInRun` |
| Substitution.RebuildParagraph | generar_slides.py:132-146 | definition of tier 2 on one paragraph: without the marker in its joined text it is kept; otherwise a paragraph with runs becomes its first run carrying the replaced joined text, and one without runs gets `SetText` of it |
| Substitution.SetText | generar_slides.py:143-144 | definition of assigning a paragraph's text: one run without properties, or no run for the empty text |
| Substitution.SubstituteShapes | generar_slides.py:151-171 | definition of the slide's shapes after `replace_marker_in_slide`: tier 1 on every shape; when no single run held the marker, tier 2 on every shape after that |
| Substitution.ReplaceMarkerRuns | generar_slides.py:100-117 | tier 1 returns the frame with every run's text replaced, and reports a change exactly when some run contained the marker |
| Substitution.ReplaceRunsShape | generar_slides.py:111-117 | tier 1 keeps every paragraph, every run and every run's properties; each run's text becomes its `replace(marker, name)`, and a run without the marker is untouched |
| Substitution.ReplaceRunsNoMarker | generar_slides.py:111-117 | when no single run holds the marker, tier 1 changes nothing |
| Substitution.ReplaceMarkerRobust | generar_slides.py:120-148 | tier 2 returns the frame with every marker-holding paragraph rebuilt, and reports a change exactly when some paragraph's joined text held the marker |
| Substitution.RebuildFrameShape | generar_slides.py:131-148 | tier 2 keeps the paragraph count and every paragraph without the marker; a marker-holding paragraph with runs becomes one run with the first run's properties and the replaced joined text |
| Substitution.NoRunsNeverMatches | generar_slides.py:138-144 | with a non-empty marker, a paragraph without runs never matches, so the `p.text = new_text` branch cannot be taken |
| Substitution.RunMarkerInSlide | generar_slides.py:158-171 | if tier 1 finds the marker, the slide holds the marker |
| Substitution.SubstituteFallback | generar_slides.py:164-169 | when no run holds the marker, tier 1 is the identity and the result is tier 2 applied to the original shapes |
| Substitution.RunsPass | generar_slides.py:158-162 | the first loop applies tier 1 to every shape with a text frame, changes nothing else, and finds the marker exactly when some single run holds it |
| Substitution.RebuildPass | generar_slides.py:164-169 | the fallback loop applies tier 2 to every shape with a text frame, changes nothing else, and finds the marker exactly when some paragraph's joined text holds it |
| Substitution.ReplaceMarkerInSlide | generar_slides.py:151-171 | the slide's shapes become the substituted shapes, relationships and background are unchanged, and the result is true exactly when the slide held the marker (in a run or split across runs) |
| Cloner.IsStructural | generar_slides.py:52 | definition: a relationship type containing `slideLayout` or `notesSlide` is never copied |
| Cloner.CopyStep | generar_slides.py:52-65 | definition of one iteration: skip a structural relationship; on a `relate_to` failure skip an internal one and fail for an external one; on success map the old rId to the new one and record the relationship in the new table |
| Cloner.CopyRels | generar_slides.py:50-65 | definition of the relationship loop: `CopyStep` over the source table in order from a start state; once failed, it stays failed |
| Cloner.Rewritten | generar_slides.py:72-78 | definition: the element tree with every element's attributes rewritten, where a reference attribute whose value is a mapped rId takes the new rId |
| Cloner.CopiedShape | generar_slides.py:68-80 | definition: a shape's deep copy with its element and its runs' properties rewritten through the rId map, texts kept |
| Cloner.CloneOf | generar_slides.py:33-97 | definition of a slide's clone: relationships copied from the new slide's own table; if that succeeds, the copied shapes in order, the copied table, the background rewritten through the map, and the source's layout; otherwise no clone |
| Cloner.CopyRelationships | generar_slides.py:47-65 | the relationship loop fails exactly when CopyRels fails; on success it leaves CopyRels's rId map and destination table, and changes nothing else on the new slide |
| Cloner.CopyShapesInto | generar_slides.py:68-80 | the shape loop appends the copy of every source shape, in order, after the new slide's shapes, and changes nothing else |
| Cloner.CopyFailurePersists | generar_slides.py:50-65 | once the relationship copy has failed on a prefix, the whole copy fails |
| Cloner.CopyRelsDomain | generar_slides.py:50-65 | after a successful copy, every new key of the rId map is a non-structural source rId, and the destination table's rIds stay distinct |
| Cloner.CopyRelsMapping | generar_slides.py:50-65 | after a successful copy, each non-structural source rId is mapped exactly when `relate_to` succeeded for it (always for an external one), and then to the rId `relate_to` returned |
| Cloner.CopyRelsFails | generar_slides.py:52-62 | the copy fails exactly when `relate_to` raised for some non-structural external relationship; failures for internal ones are skipped |
| Cloner.RewrittenAt | generar_slides.py:72-78 | rewriting keeps the tree's shape, tags and attribute names; an attribute changes only if its name ends in a reference suffix and its value is a mapped old rId, and then it takes the new rId |
| Cloner.RewriteReferences | generar_slides.py:72-78 | the attribute loop over every element of the copy computes the rewritten tree |
| Cloner.CopyShape | generar_slides.py:68-80 | each shape's deep copy has its element and run properties rewritten through the rId map, with texts kept |
| Cloner.CopiedShapeKeepsText | generar_slides.py:68-80 | a copied shape has a text frame exactly when the original has one, with the same paragraph texts, so it holds the marker exactly when the original does |
| Cloner.CloneKeepsText | generar_slides.py:33-97 | a successful clone has the source's layout and shapes in the same order, each with the same text, so it holds the marker exactly when the source does |
| Cloner.DuplicateSlide | generar_slides.py:33-97 | a fresh slide is appended last; it succeeds exactly when `CloneOf` succeeds, and then its value is the clone; on failure it is left appended, emptied of layout shapes |
| SlideList.DeleteAt | generar_slides.py:178 | definition of `del slides[index]` for an in-range index |
| SlideList.InsertAt | generar_slides.py:186 | definition of Python's `list.insert`: before position i, or appended when i is past the end |
| SlideList.Move | generar_slides.py:181-186 | definition of `move_slide`: take the slide out at the old index, then insert it at the new one |
| SlideList.DeleteAll | generar_slides.py:218-219 | definition of deleting listed positions one after the other; an out-of-range position changes nothing |
| SlideList.Drop | generar_slides.py:218-219 | definition: the entries whose original positions are not listed, in their order |
| SlideList.DeleteAtShifts | generar_slides.py:174-178 | deleting position i shortens the list by one, keeps the entries before i, and moves the later ones down by one |
| SlideList.DeleteInsertRoundTrip | generar_slides.py:178-186 | reinserting a deleted entry at its old position restores the list |
| SlideList.MovePermutes | generar_slides.py:181-186 | a move keeps the length and the multiset of slides, and puts the moved slide at the new index, or last when the index is past the end (Python `insert`) |
| SlideList.MoveRoundTrip | generar_slides.py:181-186 | moving a slide back from its new in-range index restores the list |
| SlideList.DeleteSlide | generar_slides.py:174-178 | an in-range index removes exactly that slide; an out-of-range one (an `IndexError` in Python) changes nothing and is reported |
| SlideList.MoveSlide | generar_slides.py:181-186 | an in-range old index moves that slide; an out-of-range one changes nothing and is reported |
| SlideList.ReverseDescending | generar_slides.py:218 | `sorted(…, reverse=True)` of the strictly ascending indices is strictly descending, with the same entries reversed |
| SlideList.DropSameBelow | generar_slides.py:218-219 | the slides left after dropping positions depend only on which valid positions are dropped |
| SlideList.DropAppend | generar_slides.py:218-219 | dropping positions from a prefix leaves what follows it untouched |
| SlideList.DropNothing | generar_slides.py:218-219 | dropping no position leaves the list unchanged |
| SlideList.DeleteDescending | generar_slides.py:218-219 | deleting strictly ascending in-range positions one at a time from the highest down removes exactly the slides at those original positions, keeping all others in order |
| SlideList.DropLength | generar_slides.py:218-219 | dropping k distinct in-range positions removes exactly k slides |
| Merge.TemplatesOf | main.py:126 | definition of `template_slides`: the slides holding the marker, in deck order |
| Merge.NonTemplates | main.py:134-136 | definition: the slides not holding the marker, in deck order |
| Merge.Personalise | generar_slides.py:212-213 | definition: a clone whose shapes went through `SubstituteShapes` for one name, everything else kept |
| Merge.Clones | main.py:129-132 | definition of the clones the nested loops append: for each name in order, every template's clone personalised for it, in template order |
| Merge.MergedValues | main.py:120-136 | definition of the deck after a completed merge: the non-template slides in their order, then the personalised clones (none when there are no names) |
| Merge.TemplatesAtIndices | main.py:120-126 | the template slides are exactly the slides at the template indices, in the same order |
| Merge.TemplatesHaveMarker | main.py:120-126 | every template holds the marker |
| Merge.NonTemplatesLackMarker | main.py:134-136 | no slide kept from the original deck holds the marker |
| Merge.TemplatesPartition | main.py:120-136 | every slide is either a template or kept |
| Merge.DropTemplates | main.py:134-136 | deleting the template indices leaves exactly the non-template slides in their order |
| Merge.ClonesLength | main.py:129-132 | N names and T templates give N × T clones |
| Merge.ClonesSnoc | main.py:129-132 | the clones for one more name are the earlier clones followed by that name's clones |
| Merge.ClonesPrefix | main.py:129-132 | the clones for the first m names are a prefix of the clones for all names |
| Merge.ClonesAt | main.py:129-132 | with T templates, clone number k × T + j exists and is template j's clone personalised for name k (names outermost, templates in deck order) |
| Merge.PersonaliseKeeps | generar_slides.py:210-213 | a personalised clone keeps the template's layout, the clone's relationships and background, and the template's shape count, and the clone holds the marker exactly when the template does |
| Merge.MergedCount | main.py:99-138 | with N names and T templates among S slides, a completed merge leaves S − T + N × T slides |
| Merge.MergedKeepsOthers | main.py:99-138 | the first S − T slides after a merge are the originals at non-template positions, in order, and none holds the marker |
| Merge.ValuesAppend | generar_slides.py:39 | the snapshot of a concatenated slide list is the concatenation of the snapshots |
| Merge.ValuesDeleteAt | generar_slides.py:178 | deleting a slide object deletes its snapshot at the same position |
| Merge.ClonableSnoc | generar_slides.py:211-213 | one more clonable template extends the clonable prefix, and that name's clones by exactly the new personalised clone |
| Merge.RoundAppended | generar_slides.py:210-213 | after round i of the outer loop the list is the original slides followed by the clones for the first i + 1 names |
| Merge.AppendClone | generar_slides.py:211-215 | one clone-and-substitute step succeeds exactly when the template can be cloned, then appends the personalised clone, and reports whether the marker was present |
| Merge.AppendClones | generar_slides.py:211-215 | the inner loop succeeds exactly when every template can be cloned, then appends one personalised clone per template in order; no name is reported unreplaced exactly when every template holds the marker |
| Merge.DeleteTemplates | main.py:135-136 | the deletion loop deletes the given positions in reverse order |
| Merge.AppendAllClones | generar_slides.py:210-215 | the nested loops succeed exactly when there are no names or every template can be cloned, then append all clones, names outermost; nothing is reported unreplaced when every template holds the marker |
| Merge.MergeSlides | generar_slides.py:189-222 | no template means no change; the merge fails exactly when there are templates and names and some template cannot be cloned; otherwise no name is reported unreplaced and the slide list becomes `MergedValues` |
| WebApp.CleanLines | main.py:54 | definition: every line stripped, blank ones dropped, order and duplicates kept |
| WebApp.CleanNames | main.py:54 | definition of `names_list`: the form text split at newlines, then cleaned |
| WebApp.AcceptedExtension | main.py:50 | definition: the filename ends in `.pptx` or `.ppt` |
| WebApp.CleanLinesAppend | main.py:54 | names cleaning distributes over concatenation of line lists |
| WebApp.CleanLinesExact | main.py:54 | every cleaned name is non-empty, already stripped and the strip of some line; the strip of every non-blank line is among the names |
| WebApp.CleanLinesNoNewline | main.py:54 | cleaning newline-free lines gives newline-free names |
| WebApp.CleanLinesOfClean | main.py:54 | cleaning a list of non-empty, already stripped names leaves it unchanged |
| WebApp.CleanNamesIdempotent | main.py:54 | cleaning the newline-join of a cleaned names list gives back the same list |
| WebApp.Validate | main.py:49-57 | a bad extension is rejected exactly when the filename ends in neither `.pptx` nor `.ppt`; the empty-names error occurs exactly when the extension is accepted and no name survives cleaning; otherwise the names are the cleaned list |
| WebApp.ProcessPresentation | main.py:99-138 | no marker is an error exactly when no slide holds `{{NOMBRE}}`, leaving the deck unchanged; a copy error occurs exactly when a template cannot be cloned; otherwise the deck becomes `MergedValues` |
| WebApp.ProcessSlides | main.py:49-77 | a failed check answers 400 with the source's message and leaves the deck unchanged; otherwise processing errors answer 500 exactly when there is no template or a template cannot be cloned, and success reports the number of cleaned names with the deck merged |

## Left out

- Loading and saving decks, the temporary upload file, the names file read by `main()`, the console messages, PDF export and e-mail flags, and the download endpoint: I/O, outside the engine.
- HTTP plumbing: FastAPI routing, the home page, templates and static files and the response's `status`, `message` and `output_file` fields. Only the status class, the 400 detail strings and `names_count` are modelled.
- `config.py`, `run.py` and `static/app.js` are not part of this model.
- rId generation and part targets: python-pptx internals, abstracted as the `relate` parameter, which may also fail.
- `deepcopy` and XML serialisation: a copied element is a value.
- Insertion before `p:extLst`: modelled as appending to the shape list.
- The background copy (generar_slides.py:82-95) is modelled as the code intends: a present background is copied with its `}embed`/`}link` references rewritten. The model does not capture what python-pptx may do at these lines. `background._element` is the slide's whole `p:cSld` element, so assigning it in line 93 may only rebind an attribute of a wrapper object, and no background may then reach the clone. Reading `.fill` in line 84 may also add a no-fill background to the template. The `fill.type is not None` test and the catch-all `except` are not modelled either: a background is just present or absent.
- Line breaks, fields and the paragraph-level `a:endParaRPr`: a paragraph is its runs only.
- python-pptx's handling of `\n` and `\v` when a run's text is set: run text is assigned verbatim.
- `prs.part.drop_rel` in `delete_slide`: the package-level relationship to the deleted slide part is not modelled. Only the slide-id list is.
- Negative Python indices for `delete_slide` and `move_slide`: an index is a `nat`, and an out-of-range index is reported instead of raising.
- `SlideList.DeleteAll`: an out-of-range position leaves the list unchanged. In Python it would raise. `SlideList.DeleteDescending` proves the merge never passes one.
- `Merge.MergeSlides`: `unreplaced` is always empty after a completed merge, because every clone of a template holds the marker. So `main()`'s warning about an unreplaced name is never printed.
- `Cloner.DuplicateSlide`: on failure, the relationships already copied to the new slide before the exception are not stated.
- `Merge.AppendAllClones`: on failure, the slides appended before the failing clone are not stated.
- `move_slide` is modelled on its own. The merge does not use it.
