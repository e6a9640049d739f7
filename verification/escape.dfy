/**
 * `escape_tex`: make literal text safe for LaTeX. Backslashes are doubled
 * first, then each entry of a fixed table is replaced in turn, and finally a
 * doubled line break `\\` + newline (which the first step turned into four
 * backslashes) is put back.
 */
module Escape {
  import opened Text

  /** The replacement table, in the order the escaper applies it. */
  const Replacements: seq<(string, string)> := [
    ("{", "\\{"), ("}", "\\}"), ("#", "\\#"), ("$", "\\$"),
    ("%", "\\%"), ("&", "\\&"), ("_", "\\_"), ("^", "\\^{}"),
    ("~", "\\~{}")
  ]

  /** What the restore step looks for: four backslashes and a newline ... */
  const EscapedLineBreak: string := "\\\\\\\\\n"
  /** ... and what it puts back: two backslashes and a newline. */
  const LineBreak: string := "\\\\\n"

  /** The per-character reference escape: the ten characters LaTeX reserves, each with its escape. */
  function EscapeChar(c: char): string {
    match c
    case '\\' => "\\\\"
    case '{' => "\\{"
    case '}' => "\\}"
    case '#' => "\\#"
    case '$' => "\\$"
    case '%' => "\\%"
    case '&' => "\\&"
    case '_' => "\\_"
    case '^' => "\\^{}"
    case '~' => "\\~{}"
    case _ => [c]
  }

  /** Every character of `s` replaced by its escape. */
  function EscapeChars(s: string): string {
    if s == [] then [] else EscapeChar(s[0]) + EscapeChars(s[1..])
  }

  /** The restore step: `s.replace(4 backslashes + newline, 2 backslashes + newline)`. */
  function RestoreLineBreaks(s: string): string {
    Replace(s, EscapedLineBreak, LineBreak)
  }

  /** What `escape_tex` returns, as a function of its input. */
  function EscapeTexSpec(s: string): string {
    RestoreLineBreaks(EscapeChars(s))
  }

  // ---- the state of the string between the replacement steps ----

  /** The escape of `c` once backslashes and the first `k` table entries are done. */
  function StepChar(k: nat, c: char): string
    requires k <= |Replacements|
  {
    if c == '\\' then "\\\\" else TableLookup(k, c)
  }

  /** The replacement of `c` among the first `k` table entries, or `c` itself. */
  function TableLookup(k: nat, c: char): string
    requires k <= |Replacements|
  {
    if k == 0 then [c]
    else if Replacements[k - 1].0 == [c] then Replacements[k - 1].1
    else TableLookup(k - 1, c)
  }

  function StepChars(k: nat, s: string): string
    requires k <= |Replacements|
  {
    if s == [] then [] else StepChar(k, s[0]) + StepChars(k, s[1..])
  }

  /** Every pattern of the table is one character other than a backslash. */
  lemma TablePattern(k: nat)
    requires k < |Replacements|
    ensures |Replacements[k].0| == 1 && Replacements[k].0[0] != '\\'
  {
  }

  /** A pattern of the table is never produced by an earlier replacement, and never repeated. */
  lemma TableDoesNotInterfere(j: nat, k: nat)
    requires j < k < |Replacements|
    ensures Replacements[k].0[0] !in Replacements[j].1
    ensures Replacements[k].0 != Replacements[j].0
  {
  }

  /** The per-character reference escape agrees with every entry of the table. */
  lemma TableAgreesWithEscapeChar(k: nat)
    requires k < |Replacements|
    ensures EscapeChar(Replacements[k].0[0]) == Replacements[k].1
  {
  }

  /** A character no table entry handles is its own escape. */
  lemma UnlistedCharIsItself(c: char)
    requires c != '\\'
    requires forall k :: 0 <= k < |Replacements| ==> Replacements[k].0 != [c]
    ensures EscapeChar(c) == [c]
  {
    assert Replacements[0].0 != [c] && Replacements[1].0 != [c] && Replacements[2].0 != [c];
    assert Replacements[3].0 != [c] && Replacements[4].0 != [c] && Replacements[5].0 != [c];
    assert Replacements[6].0 != [c] && Replacements[7].0 != [c] && Replacements[8].0 != [c];
  }

  /** What the first `k` entries make of `c`: the entry for `c` if there is one, else `c`. */
  lemma {:induction false} TableLookupSpec(k: nat, c: char)
    requires k <= |Replacements|
    ensures (forall j :: 0 <= j < k ==> Replacements[j].0 != [c]) ==> TableLookup(k, c) == [c]
    ensures forall j :: 0 <= j < k && Replacements[j].0 == [c] ==> TableLookup(k, c) == Replacements[j].1
  {
    if k > 0 {
      TableLookupSpec(k - 1, c);
      forall j | 0 <= j < k - 1 && Replacements[j].0 == [c]
        ensures Replacements[k - 1].0 != [c]
      {
        TableDoesNotInterfere(j, k - 1);
      }
    }
  }

  lemma TableLookupUnchanged(k: nat, c: char)
    requires k < |Replacements| && c != '\\'
    ensures Replace(TableLookup(k, c), Replacements[k].0, Replacements[k].1) == TableLookup(k + 1, c)
  {
    var p := Replacements[k].0;
    TablePattern(k);
    TableLookupSpec(k, c);
    if p == [c] {
      forall j | 0 <= j < k ensures Replacements[j].0 != [c] {
        TableDoesNotInterfere(j, k);
      }
      assert TableLookup(k, c) == [c];
      assert [c][..1] == p;
      assert Replace([c], p, Replacements[k].1) == Replacements[k].1 + Replace([], p, Replacements[k].1);
    } else {
      var t := TableLookup(k, c);
      if j :| 0 <= j < k && Replacements[j].0 == [c] {
        TableDoesNotInterfere(j, k);
      }
      ReplaceAbsent(t, p, Replacements[k].1, 0);
    }
  }

  lemma {:induction false} StepCharNext(k: nat, c: char)
    requires k < |Replacements|
    ensures Replace(StepChar(k, c), Replacements[k].0, Replacements[k].1) == StepChar(k + 1, c)
  {
    if c == '\\' {
      TablePattern(k);
      ReplaceAbsent("\\\\", Replacements[k].0, Replacements[k].1, 0);
    } else {
      TableLookupUnchanged(k, c);
    }
  }

  lemma {:induction false} StepCharsNext(k: nat, s: string)
    requires k < |Replacements|
    ensures Replace(StepChars(k, s), Replacements[k].0, Replacements[k].1) == StepChars(k + 1, s)
  {
    var p := Replacements[k].0;
    assert |p| == 1 && p == [p[0]];
    if s != [] {
      ReplaceCharAppend(StepChar(k, s[0]), StepChars(k, s[1..]), p[0], Replacements[k].1);
      StepCharNext(k, s[0]);
      StepCharsNext(k, s[1..]);
    }
  }

  /** Doubling the backslashes is step zero. */
  lemma {:induction false} DoubleBackslashesIsStepZero(s: string)
    ensures Replace(s, "\\", "\\\\") == StepChars(0, s)
  {
    if s != [] {
      assert s[..1] == [s[0]];
      DoubleBackslashesIsStepZero(s[1..]);
    }
  }

  /** After the whole table, the step-wise escape is the per-character reference escape. */
  lemma {:induction false} StepCharsComplete(s: string)
    ensures StepChars(|Replacements|, s) == EscapeChars(s)
  {
    if s != [] {
      var c := s[0];
      TableLookupSpec(|Replacements|, c);
      if c != '\\' {
        if j :| 0 <= j < |Replacements| && Replacements[j].0 == [c] {
          TableAgreesWithEscapeChar(j);
        } else {
          UnlistedCharIsItself(c);
        }
      }
      StepCharsComplete(s[1..]);
    }
  }

  /**
   * `escape_tex(s)`: the table of replacements is applied in order, each to
   * the whole string, and amounts to escaping every reserved character once.
   */
  method EscapeTex(s: string) returns (r: string)
    ensures r == RestoreLineBreaks(EscapeChars(s))
  {
    r := Replace(s, "\\", "\\\\");
    DoubleBackslashesIsStepZero(s);
    for i := 0 to |Replacements|
      invariant r == StepChars(i, s)
    {
      StepCharsNext(i, s);
      r := Replace(r, Replacements[i].0, Replacements[i].1);
    }
    StepCharsComplete(s);
    r := Replace(r, EscapedLineBreak, LineBreak);
  }

  // ---- what the escaper promises ----

  /** The characters LaTeX reserves, which the escaper rewrites. */
  predicate Reserved(c: char) {
    c in "\\{}#$%&_^~"
  }

  /**
   * Well-escaped LaTeX text: a sequence of control symbols `\x` for a reserved
   * `x` (written `\^{}` and `\~{}` for the two accents) and of characters
   * that LaTeX does not reserve.
   */
  predicate WellEscaped(t: string)
    decreases |t|
  {
    if t == [] then true
    else if t[0] == '\\' then
      |t| >= 2 && Reserved(t[1]) &&
      if t[1] == '^' || t[1] == '~' then |t| >= 4 && t[2..4] == "{}" && WellEscaped(t[4..])
      else WellEscaped(t[2..])
    else !Reserved(t[0]) && WellEscaped(t[1..])
  }

  /** Read back well-escaped text: each control symbol gives back the character it stands for. */
  function Unescape(t: string): string
    decreases |t|
  {
    if t == [] then []
    else if t[0] == '\\' && |t| >= 2 then
      if (t[1] == '^' || t[1] == '~') && |t| >= 4 && t[2..4] == "{}" then [t[1]] + Unescape(t[4..])
      else [t[1]] + Unescape(t[2..])
    else [t[0]] + Unescape(t[1..])
  }

  /** The three forms of an escape: a control symbol, an accent with an empty argument, the character itself. */
  lemma EscapeCharShape(c: char)
    ensures Reserved(c) && c != '^' && c != '~' ==> EscapeChar(c) == ['\\', c]
    ensures c == '^' || c == '~' ==> EscapeChar(c) == ['\\', c, '{', '}']
    ensures !Reserved(c) ==> EscapeChar(c) == [c]
  {
  }

  lemma ControlSymbolThenRest(c: char, rest: string)
    requires Reserved(c) && c != '^' && c != '~'
    ensures WellEscaped(rest) ==> WellEscaped(['\\', c] + rest)
    ensures Unescape(['\\', c] + rest) == [c] + Unescape(rest)
  {
    assert (['\\', c] + rest)[2..] == rest;
  }

  lemma AccentThenRest(c: char, rest: string)
    requires c == '^' || c == '~'
    ensures WellEscaped(rest) ==> WellEscaped(['\\', c, '{', '}'] + rest)
    ensures Unescape(['\\', c, '{', '}'] + rest) == [c] + Unescape(rest)
  {
    var t := ['\\', c, '{', '}'] + rest;
    assert Reserved(c);
    assert t[2..4] == "{}" && t[4..] == rest;
  }

  lemma PlainThenRest(c: char, rest: string)
    requires !Reserved(c)
    ensures WellEscaped(rest) ==> WellEscaped([c] + rest)
    ensures Unescape([c] + rest) == [c] + Unescape(rest)
  {
    assert c != '\\';
    assert ([c] + rest)[1..] == rest;
  }

  lemma EscapeCharThenRest(c: char, rest: string)
    ensures WellEscaped(rest) ==> WellEscaped(EscapeChar(c) + rest)
    ensures Unescape(EscapeChar(c) + rest) == [c] + Unescape(rest)
  {
    EscapeCharShape(c);
    if c == '^' || c == '~' {
      AccentThenRest(c, rest);
    } else if Reserved(c) {
      ControlSymbolThenRest(c, rest);
    } else {
      PlainThenRest(c, rest);
    }
  }

  /** Escaped text leaves no reserved character unescaped, and nothing is lost: it reads back as the input. */
  lemma {:induction false} EscapeCharsRoundTrip(s: string)
    ensures WellEscaped(EscapeChars(s))
    ensures Unescape(EscapeChars(s)) == s
  {
    if s != [] {
      EscapeCharsRoundTrip(s[1..]);
      EscapeCharThenRest(s[0], EscapeChars(s[1..]));
      assert [s[0]] + s[1..] == s;
    }
  }

  lemma {:induction false} EscapeCharsNoNewline(s: string)
    requires '\n' !in s
    ensures '\n' !in EscapeChars(s)
  {
    if s != [] {
      assert '\n' !in s[1..];
      EscapeCharsNoNewline(s[1..]);
    }
  }

  /** Text without a line break is escaped character by character: the restore step does nothing. */
  lemma EscapeTexWithoutNewline(s: string)
    requires '\n' !in s
    ensures EscapeTexSpec(s) == EscapeChars(s)
  {
    EscapeCharsNoNewline(s);
    ReplaceAbsent(EscapeChars(s), EscapedLineBreak, LineBreak, 4);
  }

  lemma {:induction false} EscapeCharsPlain(s: string)
    requires forall k :: 0 <= k < |s| ==> !Reserved(s[k])
    ensures EscapeChars(s) == s
  {
    if s != [] {
      EscapeCharsPlain(s[1..]);
      assert [s[0]] + s[1..] == s;
    }
  }

  /** Text with no backslash and no other reserved character comes back unchanged. */
  lemma EscapeTexPlain(s: string)
    requires forall k :: 0 <= k < |s| ==> !Reserved(s[k])
    ensures EscapeTexSpec(s) == s
  {
    EscapeCharsPlain(s);
    ReplaceAbsent(s, EscapedLineBreak, LineBreak, 0);
  }

  /** A LaTeX line break (two backslashes and a newline) passes through the escaper unchanged. */
  lemma EscapeTexKeepsLineBreak()
    ensures EscapeTexSpec("\\\\\n") == "\\\\\n"
  {
    var e := EscapeChars("\\\\\n");
    assert e == "\\\\\\\\\n";
    assert e[..5] == EscapedLineBreak;
    assert Replace(e, EscapedLineBreak, LineBreak) == LineBreak + Replace(e[5..], EscapedLineBreak, LineBreak);
  }

  /**
   * The restore step loses information: one backslash before a newline and
   * two backslashes before a newline escape to the same text.
   */
  lemma EscapeTexMergesLineBreaks()
    ensures EscapeTexSpec("\\\n") == EscapeTexSpec("\\\\\n") == LineBreak
  {
    var e := EscapeChars("\\\n");
    assert e == "\\\\\n";
    assert Replace(e, EscapedLineBreak, LineBreak) == [e[0]] + Replace(e[1..], EscapedLineBreak, LineBreak);
    assert Replace(e[1..], EscapedLineBreak, LineBreak) == [e[1]] + Replace(e[2..], EscapedLineBreak, LineBreak);
    assert Replace(e[2..], EscapedLineBreak, LineBreak) == e[2..];
    EscapeTexKeepsLineBreak();
  }
}
