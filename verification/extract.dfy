/**
 * The item extractors: metadata fields, question stem, answer choices and
 * the identifiers the response processing marks correct. Each loop of the
 * converter is a method proved against a fold that walks the same lists in
 * the same order; what each fold means is proved about the fold.
 */
module Extract {
  import opened Wrappers
  import opened Xml

  // ======== metadata (get_qti_metadata) ========

  /** The stripped text of the first `fieldlabel` of a metadata field. */
  function FieldLabel(f: Element): string {
    TextOf(First(FindAllAnyNs(f, "fieldlabel")))
  }

  /** The stripped text of the first `fieldentry` of a metadata field, `""` when there is none. */
  function FieldEntry(f: Element): string {
    TextOf(First(FindAllAnyNs(f, "fieldentry")))
  }

  /** The dictionary built by storing the fields in order; a field with an empty label is skipped. */
  function FieldsToMap(fs: seq<Element>): map<string, string>
    decreases |fs|
  {
    if fs == [] then map[]
    else
      var m := FieldsToMap(fs[..|fs| - 1]);
      var f := fs[|fs| - 1];
      if FieldLabel(f) != "" then m[FieldLabel(f) := FieldEntry(f)] else m
  }

  /** The metadata of an item: every `qtimetadatafield` in the item's walk, in document order. */
  function Metadata(item: Element): map<string, string> {
    FieldsToMap(FindAllAnyNs(item, "qtimetadatafield"))
  }

  /** `get_qti_metadata(item)`. */
  method GetQtiMetadata(item: Element) returns (meta: map<string, string>)
    ensures meta == Metadata(item)
  {
    meta := map[];
    var fields := FindAllAnyNs(item, "qtimetadatafield");
    for i := 0 to |fields|
      invariant meta == FieldsToMap(fields[..i])
    {
      var qtm := fields[i];
      var fieldLabel := TextOf(First(FindAllAnyNs(qtm, "fieldlabel")));
      var val := TextOf(First(FindAllAnyNs(qtm, "fieldentry")));
      if fieldLabel != "" {
        meta := meta[fieldLabel := val];
      }
      assert fields[..i + 1][..i] == fields[..i];
    }
    assert fields[..|fields|] == fields;
  }

  /** The keys are exactly the non-empty labels of the fields. */
  lemma {:induction false} FieldsToMapKeys(fs: seq<Element>, k: string)
    ensures k in FieldsToMap(fs) <==> k != "" && exists i :: 0 <= i < |fs| && FieldLabel(fs[i]) == k
    decreases |fs|
  {
    if fs != [] {
      var init := fs[..|fs| - 1];
      FieldsToMapKeys(init, k);
      FieldsToMapLast(fs);
      LabelAmongSnoc(fs, k);
    }
  }

  lemma FieldsToMapLast(fs: seq<Element>)
    requires fs != []
    ensures var init, f := fs[..|fs| - 1], fs[|fs| - 1];
      FieldsToMap(fs) == if FieldLabel(f) != "" then FieldsToMap(init)[FieldLabel(f) := FieldEntry(f)] else FieldsToMap(init)
  {
  }

  /** Some field of `fs` has the label `k`. */
  predicate LabelAmong(fs: seq<Element>, k: string) {
    exists i :: 0 <= i < |fs| && FieldLabel(fs[i]) == k
  }

  lemma LabelAmongSnoc(fs: seq<Element>, k: string)
    requires fs != []
    ensures LabelAmong(fs, k) <==> LabelAmong(fs[..|fs| - 1], k) || FieldLabel(fs[|fs| - 1]) == k
  {
    var init := fs[..|fs| - 1];
    if LabelAmong(fs, k) && FieldLabel(fs[|fs| - 1]) != k {
      var i :| 0 <= i < |fs| && FieldLabel(fs[i]) == k;
      assert init[i] == fs[i];
    }
    if LabelAmong(init, k) {
      var i :| 0 <= i < |init| && FieldLabel(init[i]) == k;
      assert fs[i] == init[i];
    }
  }

  /**
   * For a repeated label the last field in document order wins; a field
   * without a `fieldentry` stores `""`.
   */
  lemma {:induction false} FieldsToMapLastWins(fs: seq<Element>, i: nat)
    requires i < |fs| && FieldLabel(fs[i]) != ""
    requires forall j :: i < j < |fs| ==> FieldLabel(fs[j]) != FieldLabel(fs[i])
    ensures FieldLabel(fs[i]) in FieldsToMap(fs)
    ensures FieldsToMap(fs)[FieldLabel(fs[i])] == FieldEntry(fs[i])
    ensures FindAllAnyNs(fs[i], "fieldentry") == [] ==> FieldsToMap(fs)[FieldLabel(fs[i])] == ""
    decreases |fs|
  {
    FieldsToMapLast(fs);
    if i < |fs| - 1 {
      var init := fs[..|fs| - 1];
      assert init[i] == fs[i];
      FieldsToMapLastWins(init, i);
    }
  }

  // ======== stem (get_item_stem) ========

  /** The `material` loop: the text of the first `mattext` found under any of `mats`. */
  function FirstMaterialText(mats: seq<Element>): Option<string> {
    if mats == [] then None
    else match First(FindAllAnyNs(mats[0], "mattext"))
      case Some(mt) => Some(TextOf(Some(mt)))
      case None => FirstMaterialText(mats[1..])
  }

  /** `get_item_stem(item)`. */
  function ItemStem(item: Element): string {
    var fallback := TextOf(First(FindAllAnyNs(item, "mattext")));
    match First(FindAllAnyNs(item, "presentation"))
    case None => fallback
    case Some(pres) =>
      var mats := FindAllAnyNs(pres, "mattext");
      if mats != [] then TextOf(Some(mats[0]))
      else match FirstMaterialText(FindAllAnyNs(pres, "material"))
        case Some(t) => t
        case None => fallback
  }

  /** The `material` loop finds nothing once the presentation holds no `mattext` at all. */
  lemma {:induction false} MaterialLoopNeverReturns(pres: Element, mats: seq<Element>)
    requires FindAllAnyNs(pres, "mattext") == []
    requires forall m :: m in mats ==> m in Iter(pres)
    ensures FirstMaterialText(mats) == None
  {
    if mats != [] {
      var m := mats[0];
      if FindAllAnyNs(m, "mattext") != [] {
        var x := FindAllAnyNs(m, "mattext")[0];
        FindAllAnyNsMembers(m, "mattext");
        IterTransitive(pres, m, x);
        FindAllAnyNsMembers(pres, "mattext");
        assert false;
      }
      MaterialLoopNeverReturns(pres, mats[1..]);
    }
  }

  /**
   * The stem is the text of the first `mattext` under the first
   * `presentation`; failing that, of the first `mattext` anywhere in the
   * item; failing that, empty.
   */
  lemma ItemStemPreference(item: Element)
    ensures var pres := First(FindAllAnyNs(item, "presentation"));
      pres.Some? && FindAllAnyNs(pres.value, "mattext") != [] ==>
        ItemStem(item) == TextOf(Some(FindAllAnyNs(pres.value, "mattext")[0]))
    ensures var pres := First(FindAllAnyNs(item, "presentation"));
      (pres.None? || FindAllAnyNs(pres.value, "mattext") == []) ==>
        ItemStem(item) == TextOf(First(FindAllAnyNs(item, "mattext")))
    ensures FindAllAnyNs(item, "mattext") == [] ==> ItemStem(item) == ""
  {
    var pres := First(FindAllAnyNs(item, "presentation"));
    if pres.Some? {
      var p := pres.value;
      if FindAllAnyNs(p, "mattext") == [] {
        FindAllAnyNsMembers(p, "material");
        MaterialLoopNeverReturns(p, FindAllAnyNs(p, "material"));
      } else if FindAllAnyNs(item, "mattext") == [] {
        FindAllAnyNsNested(item, "presentation", p, "mattext", FindAllAnyNs(p, "mattext")[0]);
        assert false;
      }
    }
  }

  // ======== choices (get_choices) ========

  /** One answer choice: the label's `ident` attribute and the text of its first `mattext`. */
  datatype Choice = Choice(ident: string, text: string)

  /** The choice a `response_label` stands for; `""` for a missing `ident` or a missing `mattext`. */
  function LabelChoice(lbl: Element): Choice {
    Choice(if "ident" in lbl.attrib then lbl.attrib["ident"] else "",
           TextOf(First(FindAllAnyNs(lbl, "mattext"))))
  }

  /** A label without `ident` gives the identifier `""`; a label without `mattext` gives the text `""`. */
  lemma LabelChoiceDefaults(lbl: Element)
    ensures LabelChoice(lbl).ident == if "ident" in lbl.attrib then lbl.attrib["ident"] else ""
    ensures FindAllAnyNs(lbl, "mattext") == [] ==> LabelChoice(lbl).text == ""
    ensures FindAllAnyNs(lbl, "mattext") != [] ==>
              LabelChoice(lbl).text == TextOf(Some(FindAllAnyNs(lbl, "mattext")[0]))
  {
  }

  /** The choices of a list of `response_label`s, one each, in order. */
  function LabelChoices(lbls: seq<Element>): seq<Choice>
    decreases |lbls|
  {
    if lbls == [] then []
    else LabelChoices(lbls[..|lbls| - 1]) + [LabelChoice(lbls[|lbls| - 1])]
  }

  /** The choices under a list of `render_choice`s, in order. */
  function RenderChoiceChoices(rcs: seq<Element>): seq<Choice>
    decreases |rcs|
  {
    if rcs == [] then []
    else RenderChoiceChoices(rcs[..|rcs| - 1]) + LabelChoices(FindAllAnyNs(rcs[|rcs| - 1], "response_label"))
  }

  /** The choices under a list of `response_lid`s, in order. */
  function LidChoices(rls: seq<Element>): seq<Choice>
    decreases |rls|
  {
    if rls == [] then []
    else LidChoices(rls[..|rls| - 1]) + RenderChoiceChoices(FindAllAnyNs(rls[|rls| - 1], "render_choice"))
  }

  /** What `get_choices(item)` returns. */
  function Choices(item: Element): seq<Choice> {
    LidChoices(FindAllAnyNs(item, "response_lid"))
  }

  // The step lemmas below extend a fold by one element, after a prefix
  // `pre` of what was appended before (stated with the prefix so that the
  // loops need no reasoning about associativity).

  lemma LabelChoicesStep(pre: seq<Choice>, lbls: seq<Element>, k: nat)
    requires k < |lbls|
    ensures pre + LabelChoices(lbls[..k]) + [LabelChoice(lbls[k])] == pre + LabelChoices(lbls[..k + 1])
  {
    assert lbls[..k + 1][..k] == lbls[..k];
  }

  lemma RenderChoiceChoicesStep(pre: seq<Choice>, rcs: seq<Element>, j: nat)
    requires j < |rcs|
    ensures pre + RenderChoiceChoices(rcs[..j]) + LabelChoices(FindAllAnyNs(rcs[j], "response_label"))
         == pre + RenderChoiceChoices(rcs[..j + 1])
  {
    assert rcs[..j + 1][..j] == rcs[..j];
  }

  lemma LidChoicesStep(rls: seq<Element>, i: nat)
    requires i < |rls|
    ensures LidChoices(rls[..i]) + RenderChoiceChoices(FindAllAnyNs(rls[i], "render_choice")) == LidChoices(rls[..i + 1])
  {
    assert rls[..i + 1][..i] == rls[..i];
  }

  /** `get_choices(item)`: three nested loops, appending one choice per label. */
  method GetChoices(item: Element) returns (choices: seq<Choice>)
    ensures choices == Choices(item)
  {
    choices := [];
    var rls := FindAllAnyNs(item, "response_lid");
    for i := 0 to |rls|
      invariant choices == LidChoices(rls[..i])
    {
      var rcs := FindAllAnyNs(rls[i], "render_choice");
      ghost var before := choices;
      for j := 0 to |rcs|
        invariant choices == before + RenderChoiceChoices(rcs[..j])
      {
        var lbls := FindAllAnyNs(rcs[j], "response_label");
        ghost var mid := choices;
        for k := 0 to |lbls|
          invariant choices == mid + LabelChoices(lbls[..k])
        {
          var lbl := lbls[k];
          var ident := if "ident" in lbl.attrib then lbl.attrib["ident"] else "";
          var mat := First(FindAllAnyNs(lbl, "mattext"));
          var txt := TextOf(mat);
          LabelChoicesStep(mid, lbls, k);
          choices := choices + [Choice(ident, txt)];
        }
        assert lbls[..|lbls|] == lbls;
        RenderChoiceChoicesStep(before, rcs, j);
      }
      assert rcs[..|rcs|] == rcs;
      LidChoicesStep(rls, i);
    }
    assert rls[..|rls|] == rls;
    assert choices == LidChoices(rls);
  }

  /** One choice per label, in the labels' order. */
  lemma {:induction false} LabelChoicesSpec(lbls: seq<Element>)
    ensures |LabelChoices(lbls)| == |lbls|
    ensures forall k :: 0 <= k < |lbls| ==> LabelChoices(lbls)[k] == LabelChoice(lbls[k])
    decreases |lbls|
  {
    if lbls != [] {
      var init := lbls[..|lbls| - 1];
      LabelChoicesSpec(init);
      var cs := LabelChoices(lbls);
      assert cs == LabelChoices(init) + [LabelChoice(lbls[|lbls| - 1])];
      forall k | 0 <= k < |lbls|
        ensures cs[k] == LabelChoice(lbls[k])
      {
        if k < |init| { assert init[k] == lbls[k]; }
      }
    }
  }

  /** An item without a `response_lid` has no choices. */
  lemma NoResponseLidNoChoices(item: Element)
    requires FindAllAnyNs(item, "response_lid") == []
    ensures Choices(item) == []
  {
  }

  /**
   * With one `response_lid` holding one `render_choice`, the choices are
   * one per `response_label` of that `render_choice`, in document order.
   */
  lemma SingleRenderChoiceOrder(item: Element, rl: Element, rc: Element)
    requires FindAllAnyNs(item, "response_lid") == [rl]
    requires FindAllAnyNs(rl, "render_choice") == [rc]
    ensures var lbls := FindAllAnyNs(rc, "response_label");
            |Choices(item)| == |lbls| &&
            forall k :: 0 <= k < |lbls| ==> Choices(item)[k] == LabelChoice(lbls[k])
  {
    SingleRenderChoiceLabels(item, rl, rc);
    LabelChoicesSpec(FindAllAnyNs(rc, "response_label"));
  }

  lemma SingleRenderChoiceLabels(item: Element, rl: Element, rc: Element)
    requires FindAllAnyNs(item, "response_lid") == [rl]
    requires FindAllAnyNs(rl, "render_choice") == [rc]
    ensures Choices(item) == LabelChoices(FindAllAnyNs(rc, "response_label"))
  {
    var lbls := FindAllAnyNs(rc, "response_label");
    calc {
      Choices(item);
      LidChoices([rl]);
      { assert [rl][..0] == []; }
      LidChoices([]) + RenderChoiceChoices([rc]);
      RenderChoiceChoices([rc]);
      { assert [rc][..0] == []; }
      RenderChoiceChoices([]) + LabelChoices(lbls);
      LabelChoices(lbls);
    }
  }

  /** Every choice comes from a `response_label` inside the item. */
  lemma ChoicesFromLabels(item: Element)
    ensures forall c :: c in Choices(item) ==>
              exists lbl :: lbl in FindAllAnyNs(item, "response_label") && c == LabelChoice(lbl)
  {
    forall c | c in Choices(item)
      ensures exists lbl :: lbl in FindAllAnyNs(item, "response_label") && c == LabelChoice(lbl)
    {
      var rls := FindAllAnyNs(item, "response_lid");
      var rl, rc, lbl := LidChoicesSource(rls, c);
      FindAllAnyNsNested(rl, "render_choice", rc, "response_label", lbl);
      FindAllAnyNsNested(item, "response_lid", rl, "response_label", lbl);
    }
  }

  lemma {:induction false} LidChoicesSource(rls: seq<Element>, c: Choice) returns (rl: Element, rc: Element, lbl: Element)
    requires c in LidChoices(rls)
    ensures rl in rls && rc in FindAllAnyNs(rl, "render_choice")
    ensures lbl in FindAllAnyNs(rc, "response_label") && c == LabelChoice(lbl)
    decreases |rls|
  {
    var init := rls[..|rls| - 1];
    if c in LidChoices(init) {
      rl, rc, lbl := LidChoicesSource(init, c);
    } else {
      rl := rls[|rls| - 1];
      rc, lbl := RenderChoiceSource(FindAllAnyNs(rl, "render_choice"), c);
    }
  }

  lemma {:induction false} RenderChoiceSource(rcs: seq<Element>, c: Choice) returns (rc: Element, lbl: Element)
    requires c in RenderChoiceChoices(rcs)
    ensures rc in rcs && lbl in FindAllAnyNs(rc, "response_label") && c == LabelChoice(lbl)
    decreases |rcs|
  {
    var init := rcs[..|rcs| - 1];
    if c in RenderChoiceChoices(init) {
      rc, lbl := RenderChoiceSource(init, c);
    } else {
      rc := rcs[|rcs| - 1];
      var lbls := FindAllAnyNs(rc, "response_label");
      LabelChoicesSpec(lbls);
      var k :| 0 <= k < |lbls| && LabelChoices(lbls)[k] == c;
      lbl := lbls[k];
    }
  }

  // ======== correct identifiers (get_correct_idents) ========

  /** The non-empty stripped texts of a list of `varequal`s. */
  function VarEqualIdents(ves: seq<Element>): set<string>
    decreases |ves|
  {
    if ves == [] then {}
    else
      var ident := TextOf(Some(ves[|ves| - 1]));
      VarEqualIdents(ves[..|ves| - 1]) + if ident != "" then {ident} else {}
  }

  /** The identifiers one `respcondition` marks correct: only its first `conditionvar` is read. */
  function ConditionIdents(rc: Element): set<string> {
    match First(FindAllAnyNs(rc, "conditionvar"))
    case None => {}
    case Some(condvar) => VarEqualIdents(FindAllAnyNs(condvar, "varequal"))
  }

  function RespConditionIdents(rcs: seq<Element>): set<string>
    decreases |rcs|
  {
    if rcs == [] then {}
    else RespConditionIdents(rcs[..|rcs| - 1]) + ConditionIdents(rcs[|rcs| - 1])
  }

  function ResprocessingIdents(rps: seq<Element>): set<string>
    decreases |rps|
  {
    if rps == [] then {}
    else ResprocessingIdents(rps[..|rps| - 1]) + RespConditionIdents(FindAllAnyNs(rps[|rps| - 1], "respcondition"))
  }

  /** What `get_correct_idents(item)` returns. */
  function CorrectIdents(item: Element): set<string> {
    ResprocessingIdents(FindAllAnyNs(item, "resprocessing"))
  }

  lemma VarEqualIdentsStep(pre: set<string>, ves: seq<Element>, k: nat, ident: string)
    requires k < |ves| && ident == TextOf(Some(ves[k]))
    ensures ident != "" ==> pre + VarEqualIdents(ves[..k]) + {ident} == pre + VarEqualIdents(ves[..k + 1])
    ensures ident == "" ==> pre + VarEqualIdents(ves[..k]) == pre + VarEqualIdents(ves[..k + 1])
  {
    assert ves[..k + 1][..k] == ves[..k];
  }

  lemma RespConditionIdentsStep(pre: set<string>, rcs: seq<Element>, j: nat)
    requires j < |rcs|
    ensures pre + RespConditionIdents(rcs[..j]) + ConditionIdents(rcs[j]) == pre + RespConditionIdents(rcs[..j + 1])
  {
    assert rcs[..j + 1][..j] == rcs[..j];
  }

  lemma ResprocessingIdentsStep(rps: seq<Element>, i: nat)
    requires i < |rps|
    ensures ResprocessingIdents(rps[..i + 1])
         == ResprocessingIdents(rps[..i]) + RespConditionIdents(FindAllAnyNs(rps[i], "respcondition"))
  {
    assert rps[..i + 1][..i] == rps[..i];
  }

  /** The innermost loop of `get_correct_idents`: add the non-empty stripped `varequal` texts. */
  method AddVarEqualIdents(correct: set<string>, ves: seq<Element>) returns (r: set<string>)
    ensures r == correct + VarEqualIdents(ves)
  {
    r := correct;
    for k := 0 to |ves|
      invariant r == correct + VarEqualIdents(ves[..k])
    {
      var ident := TextOf(Some(ves[k]));
      VarEqualIdentsStep(correct, ves, k, ident);
      if ident != "" {
        r := r + {ident};
      }
    }
    assert ves[..|ves|] == ves;
  }

  /** `get_correct_idents(item)`: nested loops adding to a set. */
  method GetCorrectIdents(item: Element) returns (correct: set<string>)
    ensures correct == CorrectIdents(item)
  {
    correct := {};
    var rps := FindAllAnyNs(item, "resprocessing");
    for i := 0 to |rps|
      invariant correct == ResprocessingIdents(rps[..i])
    {
      var rcs := FindAllAnyNs(rps[i], "respcondition");
      ghost var before := correct;
      for j := 0 to |rcs|
        invariant correct == before + RespConditionIdents(rcs[..j])
      {
        RespConditionIdentsStep(before, rcs, j);
        var condvar := First(FindAllAnyNs(rcs[j], "conditionvar"));
        if condvar.Some? {
          correct := AddVarEqualIdents(correct, FindAllAnyNs(condvar.value, "varequal"));
        }
      }
      assert rcs[..|rcs|] == rcs;
      ResprocessingIdentsStep(rps, i);
    }
    assert rps[..|rps|] == rps;
    assert correct == ResprocessingIdents(rps);
  }

  /** A `varequal` contributes its stripped text, unless that is empty. */
  lemma {:induction false} VarEqualIdentsMember(ves: seq<Element>, x: string)
    ensures x in VarEqualIdents(ves) <==> x != "" && exists k :: 0 <= k < |ves| && TextOf(Some(ves[k])) == x
    decreases |ves|
  {
    if ves != [] {
      var init := ves[..|ves| - 1];
      VarEqualIdentsMember(init, x);
      var last := TextOf(Some(ves[|ves| - 1]));
      if x in VarEqualIdents(ves) && !(x == last && x != "") {
        assert x in VarEqualIdents(init);
        var k :| 0 <= k < |init| && TextOf(Some(init[k])) == x;
        assert ves[k] == init[k];
      }
      if x != "" && exists k :: 0 <= k < |ves| && TextOf(Some(ves[k])) == x {
        var k :| 0 <= k < |ves| && TextOf(Some(ves[k])) == x;
        if k < |ves| - 1 {
          assert init[k] == ves[k];
        }
      }
    }
  }

  /** The conditions of a list of `respcondition`s contribute exactly the union of their identifiers. */
  lemma {:induction false} RespConditionIdentsMember(rcs: seq<Element>, x: string)
    ensures x in RespConditionIdents(rcs) <==> exists k :: 0 <= k < |rcs| && x in ConditionIdents(rcs[k])
    decreases |rcs|
  {
    if rcs != [] {
      var init := rcs[..|rcs| - 1];
      RespConditionIdentsMember(init, x);
      if x in RespConditionIdents(rcs) && x !in ConditionIdents(rcs[|rcs| - 1]) {
        var k :| 0 <= k < |init| && x in ConditionIdents(init[k]);
        assert rcs[k] == init[k];
      }
      if exists k :: 0 <= k < |rcs| && x in ConditionIdents(rcs[k]) {
        var k :| 0 <= k < |rcs| && x in ConditionIdents(rcs[k]);
        if k < |rcs| - 1 {
          assert init[k] == rcs[k];
        }
      }
    }
  }

  lemma {:induction false} ResprocessingIdentsMember(rps: seq<Element>, x: string)
    ensures x in ResprocessingIdents(rps) <==>
            exists k :: 0 <= k < |rps| && x in RespConditionIdents(FindAllAnyNs(rps[k], "respcondition"))
    decreases |rps|
  {
    if rps != [] {
      var init := rps[..|rps| - 1];
      ResprocessingIdentsMember(init, x);
      if x in ResprocessingIdents(rps) && x !in RespConditionIdents(FindAllAnyNs(rps[|rps| - 1], "respcondition")) {
        var k :| 0 <= k < |init| && x in RespConditionIdents(FindAllAnyNs(init[k], "respcondition"));
        assert rps[k] == init[k];
      }
      if exists k :: 0 <= k < |rps| && x in RespConditionIdents(FindAllAnyNs(rps[k], "respcondition")) {
        var k :| 0 <= k < |rps| && x in RespConditionIdents(FindAllAnyNs(rps[k], "respcondition"));
        if k < |rps| - 1 {
          assert init[k] == rps[k];
        }
      }
    }
  }

  /** `rc` is a `respcondition` whose first `conditionvar` holds a `varequal` with stripped text `x`. */
  predicate MarksCorrect(rc: Element, x: string) {
    var cvs := FindAllAnyNs(rc, "conditionvar");
    cvs != [] && IsVarEqualText(cvs[0], x)
  }

  /** A `respcondition` contributes `x` exactly when it marks it correct and `x` is non-empty. */
  lemma ConditionIdentsMember(rc: Element, x: string)
    ensures x in ConditionIdents(rc) <==> x != "" && MarksCorrect(rc, x)
  {
    var cvs := FindAllAnyNs(rc, "conditionvar");
    if cvs != [] {
      var ves := FindAllAnyNs(cvs[0], "varequal");
      VarEqualIdentsMember(ves, x);
      if x != "" && MarksCorrect(rc, x) {
        var ve :| ve in ves && TextOf(Some(ve)) == x;
        var k :| 0 <= k < |ves| && ves[k] == ve;
      }
    }
  }

  /**
   * An identifier is correct exactly when it is the non-empty stripped text
   * of a `varequal` inside the first `conditionvar` of some `respcondition`
   * under some `resprocessing` of the item.
   */
  lemma CorrectIdentsMembers(item: Element, x: string)
    ensures x in CorrectIdents(item) <==>
      x != "" && exists rp, rc :: rp in FindAllAnyNs(item, "resprocessing")
                               && rc in FindAllAnyNs(rp, "respcondition")
                               && MarksCorrect(rc, x)
  {
    if x in CorrectIdents(item) {
      var rp, rc := CorrectIdentSource(item, x);
    }
    if x != "" && exists rp, rc :: rp in FindAllAnyNs(item, "resprocessing")
                                && rc in FindAllAnyNs(rp, "respcondition") && MarksCorrect(rc, x) {
      var rp, rc :| rp in FindAllAnyNs(item, "resprocessing")
                 && rc in FindAllAnyNs(rp, "respcondition") && MarksCorrect(rc, x);
      MarkedIsCorrect(item, x, rp, rc);
    }
  }

  lemma CorrectIdentSource(item: Element, x: string) returns (rp: Element, rc: Element)
    requires x in CorrectIdents(item)
    ensures x != "" && rp in FindAllAnyNs(item, "resprocessing")
         && rc in FindAllAnyNs(rp, "respcondition") && MarksCorrect(rc, x)
  {
    var rps := FindAllAnyNs(item, "resprocessing");
    ResprocessingIdentsMember(rps, x);
    var k :| 0 <= k < |rps| && x in RespConditionIdents(FindAllAnyNs(rps[k], "respcondition"));
    var rcs := FindAllAnyNs(rps[k], "respcondition");
    RespConditionIdentsMember(rcs, x);
    var j :| 0 <= j < |rcs| && x in ConditionIdents(rcs[j]);
    ConditionIdentsMember(rcs[j], x);
    rp, rc := rps[k], rcs[j];
  }

  lemma MarkedIsCorrect(item: Element, x: string, rp: Element, rc: Element)
    requires x != "" && rp in FindAllAnyNs(item, "resprocessing")
          && rc in FindAllAnyNs(rp, "respcondition") && MarksCorrect(rc, x)
    ensures x in CorrectIdents(item)
  {
    var rps := FindAllAnyNs(item, "resprocessing");
    var rcs := FindAllAnyNs(rp, "respcondition");
    var k :| 0 <= k < |rps| && rps[k] == rp;
    var j :| 0 <= j < |rcs| && rcs[j] == rc;
    ConditionIdentsMember(rc, x);
    RespConditionIdentsMember(rcs, x);
    ResprocessingIdentsMember(rps, x);
  }

  /** Some `varequal` under `condvar` has the stripped text `x`. */
  predicate IsVarEqualText(condvar: Element, x: string) {
    exists ve :: ve in FindAllAnyNs(condvar, "varequal") && TextOf(Some(ve)) == x
  }

  /** An item without response processing has no correct identifiers. */
  lemma NoResprocessingNoCorrect(item: Element)
    requires FindAllAnyNs(item, "resprocessing") == []
    ensures CorrectIdents(item) == {}
  {
  }
}
