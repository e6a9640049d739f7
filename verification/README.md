# qti2latex in Dafny

A model of the core of `qti2latex.py`. The converter reads a Canvas export of
IMS QTI 1.2 assessment items (`ims_qtiasiv1p2`) and writes a LaTeX document
for the `exam` class. The model covers the steps between parsed XML trees and
the LaTeX text of the questions:

- **Namespace-agnostic lookups** (module `Xml`). A parsed element is a
  datatype with a tag, attributes, leading text and children.
  - `findall_anyns` walks the element itself and its descendants in
    document (pre-)order.
  - `childall_anyns` and `child_anyns` look only at direct children.
  - `text_of`, `first` and `extract_tag`.
- **The LaTeX escaper** `escape_tex` (module `Escape`). It is a method that
  applies the replacement table step by step. It is proved equal to a
  per-character escape followed by the line-break restore step.
- **The item extractors** (module `Extract`).
  - The loops that build the metadata dictionary, the ordered
    `(ident, text)` choices and the set of correct identifiers are methods.
    Each is proved against a fold that walks the same lists in the same order.
  - The question stem is the function `ItemStem`. Its early returns make it a
    choice among three lookups, and the `material` loop is the recursive
    function `FirstMaterialText`.
- **The type classifier** `guess_type` (module `Classify`).
- **The question renderer** `render_question_latex` (module `Render`). It is
  a method that appends lines, proved against a description of the lines it
  produces.
- **The driver loops of `main`** (module `Assemble`):
  - the exam title and description, taken from the files;
  - the question loop over the first section of each file's assessment,
    with the question count;
  - the rewrite of `src="…"` image references to the `media/` folder.

`html_to_latex` runs pandoc in another process. Here it is the parameter
`convert: string -> string` of every member that needs it. The parameter is a
total function of which nothing else is known. Files come in already parsed,
as `seq<Option<Element>>` in the sorted order of their paths. `None` stands
for a file that failed to parse, which the converter skips.

Where the code and the prose description of the program differ, the model
follows the code:
- The metadata keys `question_type` and `interaction_type` are compared
  exactly, so a differently cased key is not seen.
- A `question_type` that is present but empty falls through to
  `interaction_type`.
- The true/false test needs only a non-empty intersection of the
  lower-cased choice texts with `{"true", "false"}` and at most three choices.
  One choice reading `TRUE` is enough, so the test is not set equality.
- An item with a `response_lid` but no choices is not true/false. It becomes
  multiple answers when its response processing marks more than one
  identifier correct. Otherwise it becomes multiple choice.
- A bare `src="x.png"` is rewritten to `src="media/x.png"`. Every match is
  rewritten, not only references that contain a directory.
- Only the first `conditionvar` of each `respcondition` is read.
- The `material` loop of `get_item_stem` (lines 92-96) never returns
  anything. Any `mattext` under a `material` of the presentation would already
  have been found by the walk at line 88.

## Model

| member | source | states |
|---|---|---|
| Text.StripSpec | qti2latex.py:52-53 | `strip()` yields the slice of the input between the leading and the trailing whitespace; the result neither starts nor ends with whitespace |
| Text.Lower | qti2latex.py:129 | lower-casing keeps the length and maps every character through the ASCII lower-case map |
| Text.LowerIdempotent | qti2latex.py:129 | lower-casing twice is lower-casing once |
| Text.AfterLastSpec | qti2latex.py:42 | `split(sep)[-1]` is a suffix of the input without `sep`, and is preceded by `sep` whenever it is shorter than the input |
| Text.AfterLastAfterSep | qti2latex.py:42 | whatever precedes the last separator does not change the last component |
| Text.ReplaceAbsent | qti2latex.py:20-29 | `str.replace` leaves a string unchanged when some character of the pattern does not occur in it |
| Xml.LocalNameSpec | qti2latex.py:42 | the local name holds no `}` and is the tail of the qualified tag, all of it for an unqualified tag |
| Xml.ExtractTag | qti2latex.py:217-218 | `extract_tag` holds no `}`, and is the tag itself for an unqualified tag |
| Xml.IterHead | qti2latex.py:42 | `elem.iter()` starts with the element itself |
| Xml.FindAllAnyNsMembers | qti2latex.py:40-42 | `findall_anyns` returns exactly the nodes of the element's walk, itself included, whose local name matches; the element comes first when it matches |
| Xml.FilterByNameMembers | qti2latex.py:40-46 | the filter of both lookups keeps exactly the elements with the local name |
| Xml.FilterByNameAppend | qti2latex.py:40-46 | the filter keeps relative order: it distributes over concatenation |
| Xml.IterTransitive | qti2latex.py:40-42 | a node in the walk of a node in the walk of `e` is in the walk of `e` |
| Xml.FindAllAnyNsNested | qti2latex.py:40-42 | a match found under a match of `e` is a match of `e` |
| Xml.ChildAnyNsIsHead | qti2latex.py:44-56 | `child_anyns` is `None` exactly when no direct child matches, and otherwise the first matching direct child: no earlier child matches |
| Xml.TextOf | qti2latex.py:52-53 | `text_of` is `""` for no element or no text, and otherwise text that neither starts nor ends with whitespace |
| Escape.EscapeTex | qti2latex.py:18-30 | the escaper (backslashes doubled, then the table applied in order, then line breaks restored) returns the per-character escape of its input with line breaks restored |
| Escape.TableDoesNotInterfere | qti2latex.py:21-27 | no replacement produces the pattern of a later one, and no pattern repeats |
| Escape.StepCharsComplete | qti2latex.py:20-27 | after the whole table every character has been replaced by its escape exactly once |
| Escape.EscapeCharsRoundTrip | qti2latex.py:18-27 | the per-character escape leaves no reserved character bare and reads back as the input |
| Escape.EscapeTexWithoutNewline | qti2latex.py:29 | for text without a newline the restore step does nothing |
| Escape.EscapeTexPlain | qti2latex.py:18-30 | text without backslashes or other reserved characters comes back unchanged |
| Escape.EscapeTexKeepsLineBreak | qti2latex.py:29 | two backslashes and a newline pass through unchanged |
| Escape.EscapeTexMergesLineBreaks | qti2latex.py:20-29 | one backslash and a newline escape to the same text as two backslashes and a newline |
| Extract.GetQtiMetadata | qti2latex.py:75-82 | the loop builds the dictionary of the fold that stores the fields in document order, skipping empty labels |
| Extract.FieldsToMapKeys | qti2latex.py:77-81 | the keys are exactly the non-empty stripped `fieldlabel` texts |
| Extract.FieldsToMapLastWins | qti2latex.py:77-81 | a label maps to the entry of its last field in document order; a field without `fieldentry` stores `""` |
| Extract.ItemStemPreference | qti2latex.py:84-99 | the stem is the first `mattext` under the first `presentation`, else the first `mattext` anywhere, else `""` |
| Extract.MaterialLoopNeverReturns | qti2latex.py:88-96 | when the presentation holds no `mattext`, the `material` loop finds none either |
| Extract.GetChoices | qti2latex.py:101-111 | the three nested loops produce one choice per `response_label` under each `render_choice` under each `response_lid`, in that order |
| Extract.LabelChoiceDefaults | qti2latex.py:107-109 | a missing `ident` gives `""`; a missing `mattext` gives the text `""` |
| Extract.LabelChoicesSpec | qti2latex.py:106-110 | one choice per label, the k-th choice from the k-th label |
| Extract.SingleRenderChoiceOrder | qti2latex.py:104-110 | with one `response_lid` holding one `render_choice`, the choices are its labels in document order |
| Extract.NoResponseLidNoChoices | qti2latex.py:104 | without a `response_lid` there are no choices |
| Extract.ChoicesFromLabels | qti2latex.py:104-110 | every choice comes from a `response_label` of the item |
| Extract.AddVarEqualIdents | qti2latex.py:121-124 | the innermost loop adds exactly the non-empty stripped `varequal` texts |
| Extract.GetCorrectIdents | qti2latex.py:113-125 | the nested loops build the set of the fold over resprocessing, respcondition and first conditionvar |
| Extract.VarEqualIdentsMember | qti2latex.py:121-124 | an identifier is added exactly when it is the non-empty stripped text of some `varequal` |
| Extract.ConditionIdentsMember | qti2latex.py:118-124 | a `respcondition` contributes exactly the non-empty texts of the `varequal`s under its first `conditionvar` |
| Extract.CorrectIdentsMembers | qti2latex.py:113-125 | an identifier is correct exactly when it is non-empty and some `respcondition` under some `resprocessing` marks it in its first `conditionvar` |
| Extract.NoResprocessingNoCorrect | qti2latex.py:116 | without `resprocessing` no identifier is correct |
| Classify.GuessType | qti2latex.py:127-147 | the guessed type is never empty |
| Classify.StructuralType | qti2latex.py:133-147 | the structural guess is one of the five fixed type names |
| Classify.MetadataOverridesStructure | qti2latex.py:129-131 | a type named by the metadata is returned lower-cased, whatever the item's structure |
| Classify.QuestionTypeFirst | qti2latex.py:129 | a non-empty `question_type` wins; otherwise a non-empty `interaction_type` |
| Classify.GuessTypeIsLowerCase | qti2latex.py:129-147 | the result is lower-case |
| Classify.StructuralRules | qti2latex.py:133-147 | without a metadata type, each of the five results holds exactly under its rule, tried in order: true/false, multiple answers, multiple choice, short answer, unknown |
| Classify.LidWithoutChoices | qti2latex.py:133-142 | a `response_lid` without choices gives multiple choice, or multiple answers with more than one correct identifier |
| Classify.IntersectionSuffices | qti2latex.py:136-138 | a single choice reading `TRUE` makes a true/false question |
| Classify.FourChoicesNeverTrueFalse | qti2latex.py:137 | four or more choices never make a true/false question |
| Render.AppendChoiceLines | qti2latex.py:185-190 | the loop appends one line per choice, in order |
| Render.AppendChoiceList | qti2latex.py:181-196 | the `choices` and `checkboxes` branches open the environment, add one line per choice of the item and close it |
| Render.RenderQuestionLatex | qti2latex.py:177-215 | the output is the join of the stem line, the layout's lines for the type, and a closing empty line |
| Render.ChoiceLinesSpec | qti2latex.py:185-190 | the k-th choice line is the line of the k-th choice |
| Render.ChoiceLineMark | qti2latex.py:187-190 | a choice line starts with `\CorrectChoice ` exactly when its identifier is correct, otherwise with `\choice `, and ends with a newline |
| Render.QuestionLinesShape | qti2latex.py:179-214 | first line `\question `+converted stem, last line empty; choice layouts have the environment lines around one line per choice, the others exactly one fixed line |
| Render.LayoutDispatch | qti2latex.py:181-212 | each layout is chosen by exactly its type strings, and every other string gets the unsupported marker |
| Render.ConcatPrefix | qti2latex.py:215 | the join starts with the first line |
| Render.RenderedQuestionShape | qti2latex.py:178-215 | the rendered question starts with `\question `, the converted stem and a newline, and ends with a newline |
| Assemble.RunLengthSpec | qti2latex.py:292 | the greedy run `[^"']+` holds no quote and stops at a quote or the end |
| Assemble.MatchAtSpec | qti2latex.py:292 | a match is `src=`, a quote, a non-empty quote-free run and a quote; without a match the run is empty or unterminated |
| Assemble.FirstCharKept | qti2latex.py:292 | the rewrite keeps the first character |
| Assemble.StepOverPrefix | qti2latex.py:292 | text without `s` is kept as it is |
| Assemble.NoQuoteUnchanged | qti2latex.py:292 | text without quotes is left as it is |
| Assemble.NoMatchPreserved | qti2latex.py:292 | a position without a match in the input has none in the output |
| Assemble.QuotedRewrite | qti2latex.py:292 | a quoted reference after `src=` becomes `src="media/<last component>"` |
| Assemble.MediaRefRewrite | qti2latex.py:292 | a rewritten reference is rewritten to itself |
| Assemble.RewriteSrcIdempotent | qti2latex.py:292 | rewriting twice is rewriting once |
| Assemble.RewriteBareName | qti2latex.py:292 | `src="x.png"` becomes `src="media/x.png"` |
| Assemble.RewriteNestedPath | qti2latex.py:292 | `src='d/x.png'` becomes `src="media/x.png"` |
| Assemble.LastChildTextWins | qti2latex.py:255-266 | the last parsed file with the child sets the title (or description), whatever earlier files hold |
| Assemble.LastChildTextNone | qti2latex.py:255-266 | there is no title (description) text exactly when no parsed file has the child |
| Assemble.ReadTitleAndDescription | qti2latex.py:254-266 | the loop leaves the last file's title text (default otherwise) and the converted text of the last file's description (`""` otherwise) |
| Assemble.WriteItem | qti2latex.py:287-294 | one question: its metadata, its guessed type and its rewritten stem, rendered |
| Assemble.WriteSection | qti2latex.py:286-298 | the inner loop renders and counts exactly the direct children tagged `item`, in order |
| Assemble.WriteFile | qti2latex.py:274-286 | a file that failed to parse, has no `assessment` child or whose assessment has no `section` child adds nothing; otherwise the section's direct `item` children are rendered and counted |
| Assemble.WriteQuestions | qti2latex.py:273-298 | `qcount` is the number of direct `item` children of the first section of the first assessment, over all parsed files; the body is their LaTeX in order |
| Assemble.FileItemsAreDirectItems | qti2latex.py:280-287 | a file's questions are exactly the direct `item` children of its first section |
| Assemble.Convert | qti2latex.py:254-298 | the escaped title, the description, the body and the count of the whole run |
| Assemble.ItemLatexShape | qti2latex.py:286-294 | every rendered question starts with `\question ` and ends with a newline |

## Left out

- `html_to_latex` (pandoc) is a foreign process. It is the parameter `convert`, a total function; its failures are not modelled.
- `ET.parse` and the skip on `ParseError`: files arrive parsed, `None` standing for a file that failed to parse. Both loops of `main` parse the same files again; the model reads one list twice, since parsing is deterministic.
- `main` stops with `SystemExit` when it finds no XML file (lines 237-238). `Assemble.Convert` takes that case as an empty list of files and returns the escaped default title, an empty description, an empty body and a count of 0.
- Reading the input directory (`read_qti_dir`), unpacking a zip, sorting the paths, copying media files, removing the temporary directory, argparse and the output file are file system and process plumbing.
- The `print` calls for nested sections and other tags have no effect on the output, and are not modelled. The final messages are not modelled either.
- The constant LaTeX text of `write_exam_header` and `write_exam_footer` is left out. `Assemble.Convert` records only that the title enters the header through `escape_tex` and the description enters it as it is.
- `Assemble.RewriteSrc`: the file name is the text after the last `/`. `pathlib`'s normalisation is not modelled. For `src="a/"`, for example, `Path("a/").name` is `a`, while the model gives the empty name. With that normalisation the rewrite is not idempotent for a reference whose name is empty: `src="/"` becomes `src="media/"` and then `src="media/media"`.
- `Assemble.RewriteSrc` models only the one regular expression at line 292, as a scanner. A general regular-expression engine is not modelled.
- `Text.Lower` lower-cases ASCII letters only. Python's `str.lower` also maps non-ASCII capitals.
- `Text.Strip` removes ASCII whitespace only: space, tab, newline, carriage return, vertical tab and form feed. Python's `str.strip` also removes other Unicode whitespace.
- The XML tree is taken as ElementTree builds it. Tails, comments and processing instructions are not modelled. `Element.text` is the element's leading text.
