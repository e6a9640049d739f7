/**
 * The driver loop of the converter over already-parsed files: the exam
 * title and description taken from the files, the questions taken from the
 * first section of each file's assessment and counted, and the rewrite of
 * image references in each stem to the `media/` folder.
 */
module Assemble {
  import opened Wrappers
  import opened Text
  import opened Xml
  import opened Extract
  import opened Classify
  import opened Render
  import opened Escape

  // ======== image reference rewrite ========

  predicate IsQuote(c: char) {
    c == '"' || c == '\''
  }

  /** The length of the longest prefix of `s` without a quote (the regex class `[^"']+`, taken greedily). */
  function RunLength(s: string): (r: nat)
    ensures r <= |s|
  {
    if s == [] || IsQuote(s[0]) then 0 else 1 + RunLength(s[1..])
  }

  /** The run holds no quote, and it ends at a quote or at the end of `s`. */
  lemma {:induction false} RunLengthSpec(s: string)
    ensures forall k :: 0 <= k < RunLength(s) ==> !IsQuote(s[k])
    ensures RunLength(s) < |s| ==> IsQuote(s[RunLength(s)])
    decreases |s|
  {
    if s != [] && !IsQuote(s[0]) {
      RunLengthSpec(s[1..]);
    }
  }

  /** `s` starts with `src=` and a quote. */
  predicate OpensSrc(s: string) {
    |s| >= 5 && s[0] == 's' && s[1] == 'r' && s[2] == 'c' && s[3] == '=' && IsQuote(s[4])
  }

  /**
   * Whether the pattern `src=["']([^"']+)["']` matches at the start of `s`,
   * and if so the length of the captured reference: `src=`, a quote of
   * either kind, a non-empty run without quotes, and a quote of either kind.
   */
  function MatchAt(s: string): (r: Option<nat>)
    ensures r.Some? ==> 6 + r.value <= |s|
  {
    if OpensSrc(s) then
      var k := RunLength(s[5..]);
      if k > 0 && 5 + k < |s| then Some(k) else None
    else None
  }

  /** What a match becomes: `src="media/<name>"`, with the last `/`-component of the reference as name. */
  function MediaRef(ref: string): string {
    "src=\"media/" + AfterLast(ref, '/') + "\""
  }

  /** The rewritten reference is `src=`, a double quote, the path under `media/`, and a double quote. */
  lemma MediaRefShape(ref: string)
    ensures MediaRef(ref) == "src=" + ['"'] + ("media" + ['/'] + AfterLast(ref, '/')) + ['"']
  {
    MediaRefText(AfterLast(ref, '/'));
  }

  lemma MediaRefText(name: string)
    ensures "src=\"media/" + name + "\"" == "src=" + ['"'] + ("media" + ['/'] + name) + ['"']
  {
    var a := "src=" + ['"'];
    var b := "media" + ['/'];
    assert "src=\"media/" == a + b;
    assert (a + b) + name == a + (b + name);
  }

  /**
   * `re.sub(r'src=["\']([^"\']+)["\']', …, stem)`: scan from the left,
   * replace each match and continue after it; elsewhere move on by one
   * character.
   */
  function RewriteSrc(s: string): string
    decreases |s|
  {
    if s == [] then []
    else match MatchAt(s)
      case Some(k) => MediaRef(s[5..5 + k]) + RewriteSrc(s[6 + k..])
      case None => [s[0]] + RewriteSrc(s[1..])
  }

  predicate NoQuotes(s: string) {
    forall k :: 0 <= k < |s| ==> !IsQuote(s[k])
  }

  /** A match is `src=`, a quote, a non-empty run without quotes and a quote; without a match the run is empty or unterminated. */
  lemma MatchAtSpec(s: string)
    ensures MatchAt(s).Some? ==>
              var k := MatchAt(s).value;
              OpensSrc(s) && k > 0 && NoQuotes(s[5..5 + k]) && IsQuote(s[5 + k])
    ensures MatchAt(s).None? && OpensSrc(s) ==>
              (|s| == 5 || IsQuote(s[5]) || NoQuotes(s[5..]))
  {
    if OpensSrc(s) {
      var tail := s[5..];
      RunLengthSpec(tail);
      if MatchAt(s).Some? {
        assert s[5..5 + RunLength(tail)] == tail[..RunLength(tail)];
      } else if |s| > 5 && !IsQuote(s[5]) {
        assert RunLength(tail) > 0;
        assert 5 + RunLength(tail) >= |s|;
      }
    }
  }

  /** The rewrite keeps the first character. */
  lemma FirstCharKept(s: string)
    requires s != []
    ensures RewriteSrc(s) != [] && RewriteSrc(s)[0] == s[0]
  {
    if MatchAt(s).Some? {
      MatchAtSpec(s);
    }
  }

  /** Past a character other than `s` no match can start, so the rewrite moves on by one. */
  lemma StepOver(s: string)
    requires s != [] && s[0] != 's'
    ensures RewriteSrc(s) == [s[0]] + RewriteSrc(s[1..])
  {
  }

  /** A text without `s` holds no match and is kept as it is in front of the rest. */
  lemma {:induction false} StepOverPrefix(p: string, s: string)
    requires 's' !in p
    ensures RewriteSrc(p + s) == p + RewriteSrc(s)
    decreases |p|
  {
    if p == [] {
      assert p + s == s;
    } else {
      var ps := p + s;
      assert ps[0] == p[0] && ps[1..] == p[1..] + s;
      StepOver(ps);
      StepOverPrefix(p[1..], s);
      ConsAppend(p, RewriteSrc(s));
    }
  }

  lemma ConsAppend<T>(p: seq<T>, r: seq<T>)
    requires p != []
    ensures [p[0]] + (p[1..] + r) == p + r
  {
  }

  /** A text without quotes holds no match and is left as it is. */
  lemma {:induction false} NoQuoteUnchanged(s: string)
    requires NoQuotes(s)
    ensures RewriteSrc(s) == s
    decreases |s|
  {
    if s != [] {
      assert NoQuotes(s[1..]);
      NoQuoteUnchanged(s[1..]);
      assert [s[0]] + s[1..] == s;
    }
  }

  /**
   * A position where the input has no match has none in the output either:
   * the rewrite keeps the characters up to the first quote after `src=` and
   * the quote itself, and keeps quote-free tails as they are.
   */
  lemma NoMatchPreserved(c: char, t: string)
    requires MatchAt([c] + t) == None
    ensures MatchAt([c] + RewriteSrc(t)) == None
  {
    var s := [c] + t;
    var u := [c] + RewriteSrc(t);
    if OpensSrc(u) {
      // The rewrite keeps `rc=` and the quote in front of t.
      assert RewriteSrc(t)[..4] == u[1..5];
      KeptPrefix(t, 4);
      var tail := t[4..];
      assert u[5..] == RewriteSrc(tail);
      assert OpensSrc(s) && s[5..] == tail;
      MatchAtSpec(s);
      if tail == [] {
      } else if IsQuote(tail[0]) {
        FirstCharKept(tail);
      } else {
        NoQuoteUnchanged(tail);
        assert NoQuotes(u[5..]);
        RunLengthOfRun(u[5..], []);
      }
    }
  }

  /** An output prefix without `s` comes unchanged from the input, and the rest of the output is the rewrite of the rest. */
  lemma {:induction false} KeptPrefix(t: string, n: nat)
    requires n <= |RewriteSrc(t)| && 's' !in RewriteSrc(t)[..n]
    ensures n <= |t| && t[..n] == RewriteSrc(t)[..n] && RewriteSrc(t)[n..] == RewriteSrc(t[n..])
    decreases n
  {
    var r := RewriteSrc(t);
    if n == 0 {
      assert t[0..] == t;
    } else {
      assert r[0] in r[..n];
      FirstStepKept(t);
      var t1, r1 := t[1..], r[1..];
      assert r1[..n - 1] == r[1..n];
      KeptPrefix(t1, n - 1);
      SliceCons(t, n);
      SliceCons(r, n);
    }
  }

  /** An output that does not start with `s` starts with the input's first character, and the rest is the rewrite of the rest. */
  lemma FirstStepKept(t: string)
    requires RewriteSrc(t) != [] && RewriteSrc(t)[0] != 's'
    ensures t != [] && t[0] == RewriteSrc(t)[0] && RewriteSrc(t)[1..] == RewriteSrc(t[1..])
  {
    FirstCharKept(t);
    StepOver(t);
  }

  lemma SliceCons<T>(x: seq<T>, n: nat)
    requires 0 < n <= |x|
    ensures x[..n] == [x[0]] + x[1..][..n - 1] && x[n..] == x[1..][n - 1..]
  {
  }

  lemma {:induction false} RunLengthOfRun(run: string, rest: string)
    requires NoQuotes(run)
    requires rest == [] || IsQuote(rest[0])
    ensures RunLength(run + rest) == |run|
    decreases |run|
  {
    if run == [] {
      assert run + rest == rest;
    } else {
      assert NoQuotes(run[1..]);
      RunLengthOfRun(run[1..], rest);
      assert (run + rest)[1..] == run[1..] + rest;
    }
  }

  /** `src=`, a quote, a non-empty quote-free run and a quote are rewritten to the run's media reference. */
  lemma QuotedRewrite(open: char, run: string, close: char, rest: string)
    requires IsQuote(open) && IsQuote(close) && run != [] && NoQuotes(run)
    ensures RewriteSrc("src=" + [open] + run + [close] + rest) == MediaRef(run) + RewriteSrc(rest)
  {
    var m := "src=" + [open] + run + [close] + rest;
    assert m[5..] == run + ([close] + rest);
    RunLengthOfRun(run, [close] + rest);
    assert OpensSrc(m);
    assert MatchAt(m) == Some(|run|);
    assert m[5..5 + |run|] == run;
    assert m[6 + |run|..] == rest;
  }

  /** The last component of a quote-free reference is quote-free. */
  lemma NoQuotesAfterLast(ref: string, sep: char)
    requires NoQuotes(ref)
    ensures NoQuotes(AfterLast(ref, sep))
  {
    var name := AfterLast(ref, sep);
    AfterLastSpec(ref, sep);
    forall k | 0 <= k < |name|
      ensures !IsQuote(name[k])
    {
      assert name[k] == ref[|ref| - |name| + k];
    }
  }

  /** The output of a match is a match again, naming the same file. */
  lemma MediaRefRewrite(ref: string, rest: string)
    requires NoQuotes(ref)
    ensures RewriteSrc(MediaRef(ref) + rest) == MediaRef(ref) + RewriteSrc(rest)
  {
    var name := AfterLast(ref, '/');
    var path := "media" + ['/'] + name;
    AfterLastSpec(ref, '/');
    AfterLastAfterSep("media", '/', name);
    NoQuotesAfterLast(ref, '/');
    assert NoQuotes(path);
    MediaRefShape(ref);
    MediaRefShape(path);
    QuotedRewrite('"', path, '"', rest);
  }

  /** The rewrite is idempotent: rewritten references are left as they are. */
  lemma {:induction false} RewriteSrcIdempotent(s: string)
    ensures RewriteSrc(RewriteSrc(s)) == RewriteSrc(s)
    decreases |s|
  {
    if s != [] {
      match MatchAt(s)
      case Some(k) =>
        MatchAtSpec(s);
        MediaRefRewrite(s[5..5 + k], RewriteSrc(s[6 + k..]));
        RewriteSrcIdempotent(s[6 + k..]);
      case None =>
        assert [s[0]] + s[1..] == s;
        NoMatchPreserved(s[0], s[1..]);
        RewriteSrcIdempotent(s[1..]);
    }
  }

  /** A bare file name is rewritten too: `src="x.png"` becomes `src="media/x.png"`. */
  lemma RewriteBareName(name: string, rest: string)
    requires name != [] && NoQuotes(name) && '/' !in name
    ensures RewriteSrc("src=\"" + name + "\"" + rest) == "src=\"media/" + name + "\"" + RewriteSrc(rest)
  {
    assert "src=\"" + name + "\"" + rest == "src=" + ['"'] + name + ['"'] + rest;
    QuotedRewrite('"', name, '"', rest);
    AfterLastNoSep(name, '/');
  }

  /**
   * A reference with directories keeps only its last component, and a
   * single-quoted reference gets double quotes: `src='d/x.png'` becomes
   * `src="media/x.png"`.
   */
  lemma RewriteNestedPath(dir: string, name: string, rest: string)
    requires NoQuotes(dir) && NoQuotes(name) && '/' !in name
    ensures RewriteSrc("src='" + dir + "/" + name + "'" + rest) == "src=\"media/" + name + "\"" + RewriteSrc(rest)
  {
    var ref := dir + ['/'] + name;
    assert NoQuotes(ref);
    assert "src='" + dir + "/" + name + "'" + rest == "src=" + ['\''] + ref + ['\''] + rest;
    QuotedRewrite('\'', ref, '\'', rest);
    AfterLastAfterSep(dir, '/', name);
  }

  // ======== exam title and description ========

  /** The first direct child named `name` of a parsed file's root; nothing for a file that failed to parse. */
  function ChildOf(f: Option<Element>, name: string): Option<Element> {
    match f
    case None => None
    case Some(root) => ChildAnyNs(root, name)
  }

  /** The text of the direct child named `name` of the last file that has one. */
  function LastChildText(files: seq<Option<Element>>, name: string): Option<string>
    decreases |files|
  {
    if files == [] then None
    else match ChildOf(files[|files| - 1], name)
      case Some(c) => Some(TextOf(Some(c)))
      case None => LastChildText(files[..|files| - 1], name)
  }

  /** The exam title: from the last file with a `title` child, otherwise the default. */
  function ExamTitle(files: seq<Option<Element>>, defaultTitle: string): string {
    LastChildText(files, "title").GetOr(defaultTitle)
  }

  /** The exam description: the converted text of the last file's `description` child, otherwise empty. */
  function ExamDescription(files: seq<Option<Element>>, convert: string -> string): string {
    match LastChildText(files, "description")
    case Some(t) => convert(t)
    case None => ""
  }

  lemma LastChildTextStep(files: seq<Option<Element>>, name: string, i: nat)
    requires i < |files|
    ensures LastChildText(files[..i + 1], name) ==
              match ChildOf(files[i], name)
              case Some(c) => Some(TextOf(Some(c)))
              case None => LastChildText(files[..i], name)
  {
    assert files[..i + 1][..i] == files[..i];
  }

  /** The last file with the child wins, whatever the files before it hold. */
  lemma {:induction false} LastChildTextWins(files: seq<Option<Element>>, name: string, i: nat)
    requires i < |files| && ChildOf(files[i], name).Some?
    requires forall j :: i < j < |files| ==> ChildOf(files[j], name).None?
    ensures LastChildText(files, name) == Some(TextOf(ChildOf(files[i], name)))
    decreases |files|
  {
    if i < |files| - 1 {
      var init := files[..|files| - 1];
      assert init[i] == files[i];
      LastChildTextWins(init, name, i);
    }
  }

  /** Without any file holding the child there is no text, and conversely. */
  lemma {:induction false} LastChildTextNone(files: seq<Option<Element>>, name: string)
    ensures LastChildText(files, name).None? <==> forall j :: 0 <= j < |files| ==> ChildOf(files[j], name).None?
    decreases |files|
  {
    if files != [] {
      var init := files[..|files| - 1];
      LastChildTextNone(init, name);
      if LastChildText(files, name).None? {
        forall j | 0 <= j < |files|
          ensures ChildOf(files[j], name).None?
        {
          if j < |files| - 1 {
            assert init[j] == files[j];
          }
        }
      } else if ChildOf(files[|files| - 1], name).None? {
        var j :| 0 <= j < |init| && ChildOf(init[j], name).Some?;
        assert files[j] == init[j];
      }
    }
  }

  /** The title and description loop of the driver: later files overwrite what earlier ones set. */
  method ReadTitleAndDescription(files: seq<Option<Element>>, defaultTitle: string, convert: string -> string)
    returns (title: string, description: string)
    ensures title == ExamTitle(files, defaultTitle)
    ensures description == ExamDescription(files, convert)
  {
    title := defaultTitle;
    description := "";
    for i := 0 to |files|
      invariant title == ExamTitle(files[..i], defaultTitle)
      invariant description == ExamDescription(files[..i], convert)
    {
      LastChildTextStep(files, "title", i);
      LastChildTextStep(files, "description", i);
      if files[i].Some? {
        var root := files[i].value;
        var titleElement := ChildAnyNs(root, "title");
        if titleElement.Some? {
          title := TextOf(titleElement);
        }
        var descriptionElement := ChildAnyNs(root, "description");
        if descriptionElement.Some? {
          description := convert(TextOf(descriptionElement));
        }
      }
    }
    assert files[..|files|] == files;
  }

  // ======== questions ========

  /**
   * The questions of one parsed file: the direct children tagged `item` of
   * the first `section` child of the first `assessment` child of the root.
   */
  function FileItems(f: Option<Element>): seq<Element> {
    match ChildOf(f, "assessment")
    case None => []
    case Some(assessment) =>
      match ChildAnyNs(assessment, "section")
      case None => []
      case Some(section) => FilterByName(section.children, "item")
  }

  /** The questions of all files, file by file, each file's in document order. */
  function AllItems(files: seq<Option<Element>>): seq<Element>
    decreases |files|
  {
    if files == [] then [] else AllItems(files[..|files| - 1]) + FileItems(files[|files| - 1])
  }

  /** The LaTeX of one question, as the driver produces it. */
  function ItemLatex(item: Element, convert: string -> string): string {
    Concat(QuestionLines(GuessType(Metadata(item), item), RewriteSrc(ItemStem(item)),
                         Choices(item), CorrectIdents(item), convert))
  }

  /** The driver's rendering of one question, as a function value. */
  function RenderItem(convert: string -> string): Element -> string {
    item => ItemLatex(item, convert)
  }

  /** The texts `render` gives the items, one after the other. */
  function ConcatMap(items: seq<Element>, render: Element -> string): string
    decreases |items|
  {
    if items == [] then "" else ConcatMap(items[..|items| - 1], render) + render(items[|items| - 1])
  }

  lemma {:induction false} ConcatMapAppend(xs: seq<Element>, ys: seq<Element>, render: Element -> string)
    ensures ConcatMap(xs, render) + ConcatMap(ys, render) == ConcatMap(xs + ys, render)
    decreases |ys|
  {
    if ys == [] {
      assert xs + ys == xs;
    } else {
      var init := ys[..|ys| - 1];
      ConcatMapAppend(xs, init, render);
      assert (xs + ys)[..|xs + ys| - 1] == xs + init;
    }
  }

  lemma ConcatMapSnoc(pre: string, xs: seq<Element>, x: Element, render: Element -> string)
    ensures pre + ConcatMap(xs, render) + render(x) == pre + ConcatMap(xs + [x], render)
  {
    assert (xs + [x])[..|xs|] == xs;
  }

  lemma FilterStep(qs: seq<Element>, j: nat)
    requires j < |qs|
    ensures FilterByName(qs[..j + 1], "item") ==
              FilterByName(qs[..j], "item") + (if ExtractTag(qs[j]) == "item" then [qs[j]] else [])
  {
    assert qs[..j + 1] == qs[..j] + [qs[j]];
    FilterByNameAppend(qs[..j], [qs[j]], "item");
    assert [qs[j]][1..] == [];
  }

  /**
   * The body of the inner loop for a child tagged `item`: read its metadata,
   * guess its type, take its stem with image references rewritten, render it.
   */
  method WriteItem(question: Element, convert: string -> string) returns (latex: string)
    ensures latex == ItemLatex(question, convert)
  {
    var meta := GetQtiMetadata(question);
    var qtype := GuessType(meta, question);
    var stem := ItemStem(question);
    stem := RewriteSrc(stem);
    latex := RenderQuestionLatex(qtype, stem, question, convert);
  }

  /** The inner loop of the driver: render and count every direct child tagged `item`, skip the others. */
  method WriteSection(body: string, qcount: nat, questions: seq<Element>, convert: string -> string)
    returns (body': string, qcount': nat)
    ensures qcount' == qcount + |FilterByName(questions, "item")|
    ensures body' == body + ConcatMap(FilterByName(questions, "item"), RenderItem(convert))
  {
    body', qcount' := body, qcount;
    for j := 0 to |questions|
      invariant qcount' == qcount + |FilterByName(questions[..j], "item")|
      invariant body' == body + ConcatMap(FilterByName(questions[..j], "item"), RenderItem(convert))
    {
      var question := questions[j];
      FilterStep(questions, j);
      if ExtractTag(question) == "item" {
        qcount' := qcount' + 1;
        var latex := WriteItem(question, convert);
        assert latex == RenderItem(convert)(question);
        ghost var done := FilterByName(questions[..j], "item");
        ConcatMapSnoc(body, done, question, RenderItem(convert));
        assert FilterByName(questions[..j + 1], "item") == done + [question];
        body' := body' + latex;
        assert body' == body + ConcatMap(done + [question], RenderItem(convert));
      } else {
        assert FilterByName(questions[..j + 1], "item") == FilterByName(questions[..j], "item");
      }
    }
    assert questions[..|questions|] == questions;
  }

  /**
   * The question loop of the driver over the parsed files, in order: files
   * that failed to parse, files without an `assessment` child and
   * assessments without a `section` child contribute nothing.
   */
  method WriteQuestions(files: seq<Option<Element>>, convert: string -> string) returns (body: string, qcount: nat)
    ensures qcount == |AllItems(files)|
    ensures body == ConcatMap(AllItems(files), RenderItem(convert))
  {
    body, qcount := "", 0;
    for i := 0 to |files|
      invariant qcount == |AllItems(files[..i])|
      invariant body == ConcatMap(AllItems(files[..i]), RenderItem(convert))
    {
      AllItemsStep(files, i, RenderItem(convert));
      body, qcount := WriteFile(body, qcount, files[i], convert);
    }
    assert files[..|files|] == files;
  }

  lemma AllItemsStep(files: seq<Option<Element>>, i: nat, render: Element -> string)
    requires i < |files|
    ensures |AllItems(files[..i + 1])| == |AllItems(files[..i])| + |FileItems(files[i])|
    ensures ConcatMap(AllItems(files[..i + 1]), render)
         == ConcatMap(AllItems(files[..i]), render) + ConcatMap(FileItems(files[i]), render)
  {
    assert files[..i + 1][..i] == files[..i];
    ConcatMapAppend(AllItems(files[..i]), FileItems(files[i]), render);
  }

  /** One pass of the file loop: the questions of one parsed file, if it has a section. */
  method WriteFile(body: string, qcount: nat, file: Option<Element>, convert: string -> string)
    returns (body': string, qcount': nat)
    ensures qcount' == qcount + |FileItems(file)|
    ensures body' == body + ConcatMap(FileItems(file), RenderItem(convert))
  {
    body', qcount' := body, qcount;
    if file.Some? {
      var root := file.value;
      var assessment := ChildAnyNs(root, "assessment");
      if assessment.Some? {
        var questions := ChildAnyNs(assessment.value, "section");
        if questions.Some? {
          assert FileItems(file) == FilterByName(questions.value.children, "item");
          body', qcount' := WriteSection(body, qcount, questions.value.children, convert);
          return;
        }
      }
    }
    assert FileItems(file) == [];
  }

  /** A file contributes exactly the direct `item` children of its first section: nested sections add nothing. */
  lemma FileItemsAreDirectItems(root: Element, assessment: Element, section: Element, x: Element)
    requires ChildAnyNs(root, "assessment") == Some(assessment)
    requires ChildAnyNs(assessment, "section") == Some(section)
    ensures x in FileItems(Some(root)) <==> x in section.children && ExtractTag(x) == "item"
  {
    FilterByNameMembers(section.children, "item");
  }

  // ======== the driver ========

  /**
   * The modelled part of `main`: the title and description loop, then the
   * question loop, over the same parsed files in the same (sorted) order.
   * The title enters the document header escaped, the description as it is.
   */
  method Convert(files: seq<Option<Element>>, defaultTitle: string, convert: string -> string)
    returns (titleTex: string, description: string, body: string, qcount: nat)
    ensures titleTex == EscapeTexSpec(ExamTitle(files, defaultTitle))
    ensures description == ExamDescription(files, convert)
    ensures qcount == |AllItems(files)|
    ensures body == ConcatMap(AllItems(files), RenderItem(convert))
  {
    var title;
    title, description := ReadTitleAndDescription(files, defaultTitle, convert);
    titleTex := EscapeTex(title);
    body, qcount := WriteQuestions(files, convert);
  }

  /** Every rendered question starts with `\question ` and ends with a newline. */
  lemma ItemLatexShape(item: Element, convert: string -> string)
    ensures var out := ItemLatex(item, convert);
            |out| >= 10 && out[..10] == "\\question " && out[|out| - 1] == '\n'
  {
    var stem := RewriteSrc(ItemStem(item));
    RenderedQuestionShape(GuessType(Metadata(item), item), stem, Choices(item), CorrectIdents(item), convert);
    var first := "\\question " + convert(stem) + "\n";
    assert first[..10] == "\\question ";
  }
}
