/**
 * The per-question LaTeX renderer for the `exam` document class. The
 * HTML-to-LaTeX conversion is an external program; it is the parameter
 * `convert`, a total function of which nothing else is known.
 */
module Render {
  import opened Xml
  import opened Extract

  /** How the body of a question is laid out, chosen from its type string. */
  datatype Layout =
    | ChoiceList(env: string)  // one line per choice inside `\begin{env}` … `\end{env}`
    | SingleLine(line: string) // one fixed line

  const FillIn := "\\fillin[\\hspace{1.5in}]\n"
  const Space := "\\vspace{2.5\\baselineskip}\n"
  const Unsupported := "\\\\[4pt]\\emph{[Unsupported/unknown question type\U{2014}review manually.]}\n"

  /** The dispatch of `render_question_latex` on the type string; every string has a layout. */
  function LayoutOf(qtype: string): Layout {
    if qtype in {"multiple_choice_question", "true_false_question"} then ChoiceList("choices")
    else if qtype == "multiple_answers_question" then ChoiceList("checkboxes")
    else if qtype in {"short_answer_question", "numerical_question", "short_answer"} then SingleLine(FillIn)
    else if qtype in {"essay_question", "text_only_question"} then SingleLine(Space)
    else SingleLine(Unsupported)
  }

  /** The first line of every question. */
  function StemLine(stemHtml: string, convert: string -> string): string {
    "\\question " + convert(stemHtml) + "\n"
  }

  const CorrectMark := "\\CorrectChoice "
  const ChoiceMark := "\\choice "

  /** The line of one choice: marked correct exactly when its identifier is in `correct`. */
  function ChoiceLine(c: Choice, correct: set<string>, convert: string -> string): string {
    (if c.ident in correct then CorrectMark else ChoiceMark) + convert(c.text) + "\n"
  }

  /** The lines of a list of choices, one each, in order. */
  function ChoiceLines(choices: seq<Choice>, correct: set<string>, convert: string -> string): seq<string>
    decreases |choices|
  {
    if choices == [] then []
    else ChoiceLines(choices[..|choices| - 1], correct, convert) + [ChoiceLine(choices[|choices| - 1], correct, convert)]
  }

  function Begin(env: string): string { "\\begin{" + env + "}\n" }
  function End(env: string): string { "\\end{" + env + "}\n" }

  /** The lines between the stem line and the closing empty line. */
  function BodyLines(layout: Layout, choices: seq<Choice>, correct: set<string>, convert: string -> string): seq<string> {
    match layout
    case ChoiceList(env) => [Begin(env)] + ChoiceLines(choices, correct, convert) + [End(env)]
    case SingleLine(line) => [line]
  }

  /** The lines `render_question_latex` collects, for the given choices and correct identifiers. */
  function QuestionLines(qtype: string, stemHtml: string, choices: seq<Choice>, correct: set<string>,
                         convert: string -> string): seq<string>
  {
    [StemLine(stemHtml, convert)] + BodyLines(LayoutOf(qtype), choices, correct, convert) + ["\n"]
  }

  /** `"".join(lines)`. */
  function Concat(lines: seq<string>): string
    decreases |lines|
  {
    if lines == [] then "" else Concat(lines[..|lines| - 1]) + lines[|lines| - 1]
  }

  lemma ChoiceLinesStep(pre: seq<string>, choices: seq<Choice>, k: nat, correct: set<string>, convert: string -> string)
    requires k < |choices|
    ensures pre + ChoiceLines(choices[..k], correct, convert) + [ChoiceLine(choices[k], correct, convert)]
         == pre + ChoiceLines(choices[..k + 1], correct, convert)
  {
    assert choices[..k + 1][..k] == choices[..k];
  }

  /**
   * The loop over the choices, shared by the `choices` and the `checkboxes`
   * branches: append one line per choice.
   */
  method AppendChoiceLines(lines: seq<string>, choices: seq<Choice>, correct: set<string>, convert: string -> string)
    returns (r: seq<string>)
    ensures r == lines + ChoiceLines(choices, correct, convert)
  {
    r := lines;
    for k := 0 to |choices|
      invariant r == lines + ChoiceLines(choices[..k], correct, convert)
    {
      var body := convert(choices[k].text);
      ChoiceLinesStep(lines, choices, k, correct, convert);
      if choices[k].ident in correct {
        r := r + [CorrectMark + body + "\n"];
      } else {
        r := r + [ChoiceMark + body + "\n"];
      }
    }
    assert choices[..|choices|] == choices;
  }

  /**
   * The `choices` and `checkboxes` branches: open the environment, one line
   * per choice of the item, close the environment.
   */
  method AppendChoiceList(lines: seq<string>, env: string, item: Element, convert: string -> string)
    returns (r: seq<string>)
    ensures r == lines + BodyLines(ChoiceList(env), Choices(item), CorrectIdents(item), convert)
  {
    r := lines + ["\\begin{" + env + "}\n"];
    var choices := GetChoices(item);
    var correct := GetCorrectIdents(item);
    r := AppendChoiceLines(r, choices, correct, convert);
    r := r + ["\\end{" + env + "}\n"];
    ghost var middle := ChoiceLines(choices, correct, convert);
    assert r == lines + [Begin(env)] + middle + [End(env)];
    Regroup(lines, Begin(env), middle, End(env));
  }

  lemma Regroup<T>(pre: seq<T>, first: T, middle: seq<T>, last: T)
    ensures pre + [first] + middle + [last] == pre + ([first] + middle + [last])
  {
  }

  /** `render_question_latex(qtype, stem_html, item)`. */
  method RenderQuestionLatex(qtype: string, stemHtml: string, item: Element, convert: string -> string)
    returns (out: string)
    ensures out == Concat(QuestionLines(qtype, stemHtml, Choices(item), CorrectIdents(item), convert))
  {
    var stem := convert(stemHtml);
    var lines := ["\\question " + stem + "\n"];
    ghost var layout := LayoutOf(qtype);
    if qtype == "multiple_choice_question" || qtype == "true_false_question" {
      assert layout == ChoiceList("choices");
      lines := AppendChoiceList(lines, "choices", item, convert);
    } else if qtype == "multiple_answers_question" {
      assert layout == ChoiceList("checkboxes");
      lines := AppendChoiceList(lines, "checkboxes", item, convert);
    } else if qtype == "short_answer_question" || qtype == "numerical_question" || qtype == "short_answer" {
      assert layout == SingleLine(FillIn);
      lines := lines + [FillIn];
    } else if qtype == "essay_question" || qtype == "text_only_question" {
      assert layout == SingleLine(Space);
      lines := lines + [Space];
    } else {
      assert layout == SingleLine(Unsupported);
      lines := lines + [Unsupported];
    }
    assert lines == [StemLine(stemHtml, convert)] + BodyLines(layout, Choices(item), CorrectIdents(item), convert);
    lines := lines + ["\n"];
    out := Concat(lines);
  }

  // ======== properties of the rendered lines ========

  /** One line per choice, in order, each marked correct exactly when its identifier is correct. */
  lemma {:induction false} ChoiceLinesSpec(choices: seq<Choice>, correct: set<string>, convert: string -> string)
    ensures |ChoiceLines(choices, correct, convert)| == |choices|
    ensures forall k :: 0 <= k < |choices| ==> ChoiceLines(choices, correct, convert)[k] == ChoiceLine(choices[k], correct, convert)
    decreases |choices|
  {
    if choices != [] {
      ChoiceLinesSpec(choices[..|choices| - 1], correct, convert);
    }
  }

  /** A choice line starts with `\CorrectChoice ` exactly when the choice is correct, otherwise with `\choice `. */
  lemma ChoiceLineMark(c: Choice, correct: set<string>, convert: string -> string)
    ensures var line := ChoiceLine(c, correct, convert);
            && (c.ident in correct <==> |line| >= |CorrectMark| && line[..|CorrectMark|] == CorrectMark)
            && (c.ident !in correct <==> |line| >= |ChoiceMark| && line[..|ChoiceMark|] == ChoiceMark)
            && line[|line| - 1] == '\n'
  {
    var line := ChoiceLine(c, correct, convert);
    if c.ident in correct {
      assert line[..|CorrectMark|] == CorrectMark;
      assert line[..|ChoiceMark|] != ChoiceMark by {
        assert line[1] == 'C' && ChoiceMark[1] == 'c';
      }
    } else {
      assert line[..|ChoiceMark|] == ChoiceMark;
      if |line| >= |CorrectMark| {
        assert line[..|CorrectMark|] != CorrectMark by {
          assert line[1] == 'c' && CorrectMark[1] == 'C';
        }
      }
    }
  }

  /**
   * The shape of every question: the stem line first, the empty line last,
   * and between them either the wrapped choice lines or one fixed line.
   */
  lemma QuestionLinesShape(qtype: string, stemHtml: string, choices: seq<Choice>, correct: set<string>,
                           convert: string -> string)
    ensures var lines := QuestionLines(qtype, stemHtml, choices, correct, convert);
            && lines[0] == "\\question " + convert(stemHtml) + "\n"
            && lines[|lines| - 1] == "\n"
            && (LayoutOf(qtype).ChoiceList? ==>
                  |lines| == |choices| + 4
                  && lines[1] == "\\begin{" + LayoutOf(qtype).env + "}\n"
                  && lines[|lines| - 2] == "\\end{" + LayoutOf(qtype).env + "}\n"
                  && forall k :: 0 <= k < |choices| ==> lines[k + 2] == ChoiceLine(choices[k], correct, convert))
            && (LayoutOf(qtype).SingleLine? ==> lines == [lines[0], LayoutOf(qtype).line, "\n"])
  {
    ChoiceLinesSpec(choices, correct, convert);
  }

  /** Multiple choice and true/false use `choices`, multiple answers uses `checkboxes`. */
  lemma LayoutDispatch(qtype: string)
    ensures LayoutOf(qtype) == ChoiceList("choices") <==>
              qtype == "multiple_choice_question" || qtype == "true_false_question"
    ensures LayoutOf(qtype) == ChoiceList("checkboxes") <==> qtype == "multiple_answers_question"
    ensures LayoutOf(qtype) == SingleLine(FillIn) <==>
              qtype == "short_answer_question" || qtype == "numerical_question" || qtype == "short_answer"
    ensures LayoutOf(qtype) == SingleLine(Space) <==> qtype == "essay_question" || qtype == "text_only_question"
    ensures LayoutOf(qtype) == SingleLine(Unsupported) <==>
              qtype !in {"multiple_choice_question", "true_false_question", "multiple_answers_question",
                         "short_answer_question", "numerical_question", "short_answer",
                         "essay_question", "text_only_question"}
  {
  }

  /** Joining lines: a line's text is a prefix or suffix of the whole when it comes first or last. */
  lemma {:induction false} ConcatPrefix(lines: seq<string>)
    requires lines != []
    ensures |Concat(lines)| >= |lines[0]| && Concat(lines)[..|lines[0]|] == lines[0]
    decreases |lines|
  {
    if |lines| > 1 {
      ConcatPrefix(lines[..|lines| - 1]);
    } else {
      assert lines[..0] == [];
    }
  }

  /** The rendered question starts with `\question `, the converted stem and a newline, and ends with a newline. */
  lemma RenderedQuestionShape(qtype: string, stemHtml: string, choices: seq<Choice>, correct: set<string>,
                              convert: string -> string)
    ensures var out := Concat(QuestionLines(qtype, stemHtml, choices, correct, convert));
            var first := "\\question " + convert(stemHtml) + "\n";
            && |out| >= |first| && out[..|first|] == first
            && out[|out| - 1] == '\n'
  {
    var lines := QuestionLines(qtype, stemHtml, choices, correct, convert);
    QuestionLinesShape(qtype, stemHtml, choices, correct, convert);
    ConcatPrefix(lines);
    assert Concat(lines) == Concat(lines[..|lines| - 1]) + "\n";
  }
}
