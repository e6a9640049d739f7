/**
 * The few Python `str` builtins the converter relies on: `strip()`,
 * `lower()`, `replace()` and `split(sep)[-1]`.
 */
module Text {

  /** The characters `str.strip()` removes, restricted to ASCII whitespace. */
  predicate IsSpace(c: char) {
    c == ' ' || c == '\t' || c == '\n' || c == '\r' || c == '\U{B}' || c == '\U{C}'
  }

  function TrimStart(s: string): string
  {
    if s != [] && IsSpace(s[0]) then TrimStart(s[1..]) else s
  }

  function TrimEnd(s: string): string
  {
    if s != [] && IsSpace(s[|s| - 1]) then TrimEnd(s[..|s| - 1]) else s
  }

  /**
   * `s.strip()`: the infix of `s` left once the whitespace at both ends is
   * removed; the result neither starts nor ends with whitespace.
   */
  function Strip(s: string): string
  {
    TrimEnd(TrimStart(s))
  }

  lemma {:induction false} TrimStartSpec(s: string)
    ensures var r := TrimStart(s);
      |r| <= |s| && r == s[|s| - |r|..] &&
      (forall k :: 0 <= k < |s| - |r| ==> IsSpace(s[k])) &&
      (r == [] || !IsSpace(r[0]))
  {
    if s != [] && IsSpace(s[0]) {
      var t := s[1..];
      TrimStartSpec(t);
      var r := TrimStart(t);
      assert r == t[|t| - |r|..] == s[|s| - |r|..];
      forall k | 0 <= k < |s| - |r|
        ensures IsSpace(s[k])
      {
        if k > 0 { assert s[k] == t[k - 1]; }
      }
    }
  }

  lemma {:induction false} TrimEndSpec(s: string)
    ensures var r := TrimEnd(s);
      |r| <= |s| && r == s[..|r|] &&
      (forall k :: |r| <= k < |s| ==> IsSpace(s[k])) &&
      (r == [] || !IsSpace(r[|r| - 1]))
  {
    if s != [] && IsSpace(s[|s| - 1]) {
      TrimEndSpec(s[..|s| - 1]);
    }
  }

  /**
   * `s.strip()` is the infix of `s` left once the whitespace at both ends is
   * removed: what is cut off is whitespace, and the result neither starts
   * nor ends with whitespace.
   */
  lemma StripSpec(s: string)
    ensures var r := Strip(s);
      exists i, j :: 0 <= i <= j <= |s| && r == s[i..j]
                     && (forall k :: 0 <= k < i ==> IsSpace(s[k]))
                     && (forall k :: j <= k < |s| ==> IsSpace(s[k]))
    ensures var r := Strip(s);
      r == [] || (!IsSpace(r[0]) && !IsSpace(r[|r| - 1]))
  {
    var t := TrimStart(s);
    TrimStartSpec(s);
    TrimEndSpec(t);
    var r := TrimEnd(t);
    var i := |s| - |t|;
    SpacesInSuffix(s, i, |r|);
    assert r == s[i..i + |r|];
  }

  /** Whitespace at the end of the suffix `s[i..]` is whitespace at the end of `s`. */
  lemma SpacesInSuffix(s: string, i: nat, n: nat)
    requires i <= |s| && n <= |s| - i
    requires forall k :: n <= k < |s[i..]| ==> IsSpace(s[i..][k])
    ensures forall k :: i + n <= k < |s| ==> IsSpace(s[k])
  {
    forall k | i + n <= k < |s|
      ensures IsSpace(s[k])
    {
      assert s[k] == s[i..][k - i];
    }
  }

  /** Python's `lower()` on one character, for the ASCII letters. */
  function LowerChar(c: char): char {
    if 'A' <= c <= 'Z' then (c as int + 32) as char else c
  }

  /** `s.lower()`: same length, every ASCII capital replaced by its small letter. */
  function Lower(s: string): (r: string)
    ensures |r| == |s|
    ensures forall k :: 0 <= k < |s| ==> r[k] == LowerChar(s[k])
  {
    if s == [] then [] else [LowerChar(s[0])] + Lower(s[1..])
  }

  /** `s` holds no ASCII capital. */
  predicate NoCapitals(s: string) {
    forall k :: 0 <= k < |s| ==> !('A' <= s[k] <= 'Z')
  }

  /** Lower-casing leaves text without capitals unchanged. */
  lemma LowerNoCapitals(s: string)
    requires NoCapitals(s)
    ensures Lower(s) == s
  {
    assert forall k :: 0 <= k < |s| ==> Lower(s)[k] == s[k];
  }

  /** Lower-casing twice is lower-casing once. */
  lemma LowerIdempotent(s: string)
    ensures Lower(Lower(s)) == Lower(s)
  {
    var l := Lower(s);
    assert forall k :: 0 <= k < |l| ==> Lower(l)[k] == LowerChar(LowerChar(s[k]));
  }

  /**
   * `s.split(sep)[-1]`: the text after the last `sep`, or all of `s` when
   * `sep` does not occur in it.
   */
  function AfterLast(s: string, sep: char): string
    decreases |s|
  {
    if s == [] then []
    else if s[|s| - 1] == sep then []
    else AfterLast(s[..|s| - 1], sep) + [s[|s| - 1]]
  }

  /**
   * The last component holds no `sep`, is a suffix of `s`, and is preceded
   * by `sep` whenever it is not all of `s`.
   */
  lemma {:induction false} AfterLastSpec(s: string, sep: char)
    ensures var r := AfterLast(s, sep);
      sep !in r && |r| <= |s| && r == s[|s| - |r|..] &&
      (|r| < |s| ==> s[|s| - |r| - 1] == sep)
    decreases |s|
  {
    if s != [] && s[|s| - 1] != sep {
      var init := s[..|s| - 1];
      AfterLastSpec(init, sep);
      var r0 := AfterLast(init, sep);
      assert AfterLast(s, sep) == r0 + [s[|s| - 1]];
      assert s[|s| - |r0| - 1..] == init[|init| - |r0|..] + [s[|s| - 1]];
    }
  }

  /** A string in which `sep` does not occur is its own last component. */
  lemma AfterLastNoSep(s: string, sep: char)
    requires sep !in s
    ensures AfterLast(s, sep) == s
  {
    AfterLastSpec(s, sep);
    assert s[0..] == s;
  }

  /** Whatever precedes the last `sep` does not affect the last component. */
  lemma {:induction false} AfterLastAfterSep(p: string, sep: char, b: string)
    requires sep !in b
    ensures AfterLast(p + [sep] + b, sep) == b
  {
    if b == [] {
      assert p + [sep] + b == p + [sep];
    } else {
      var n := |b| - 1;
      assert (p + [sep] + b)[..|p + [sep] + b| - 1] == p + [sep] + b[..n];
      assert sep !in b[..n];
      AfterLastAfterSep(p, sep, b[..n]);
      assert b[..n] + [b[n]] == b;
    }
  }

  /**
   * `s.replace(pat, rep)` for a non-empty `pat`: scan from the left and
   * replace every non-overlapping occurrence of `pat` by `rep`.
   */
  function Replace(s: string, pat: string, rep: string): string
    requires pat != []
    decreases |s|
  {
    if |s| < |pat| then s
    else if s[..|pat|] == pat then rep + Replace(s[|pat|..], pat, rep)
    else [s[0]] + Replace(s[1..], pat, rep)
  }

  /** A string in which some character of `pat` never occurs is left as it is. */
  lemma {:induction false} ReplaceAbsent(s: string, pat: string, rep: string, k: nat)
    requires k < |pat| && pat[k] !in s
    ensures Replace(s, pat, rep) == s
  {
    if |s| >= |pat| {
      assert s[..|pat|][k] == s[k];
      assert pat[k] !in s[1..];
      ReplaceAbsent(s[1..], pat, rep, k);
      assert [s[0]] + s[1..] == s;
    }
  }

  /** Replacing a single character works character by character, so it distributes over `+`. */
  lemma {:induction false} ReplaceCharAppend(a: string, b: string, c: char, rep: string)
    ensures Replace(a + b, [c], rep) == Replace(a, [c], rep) + Replace(b, [c], rep)
  {
    if a == [] {
      assert a + b == b;
    } else {
      var ab := a + b;
      assert ab[..1] == [a[0]] && a[..1] == [a[0]];
      assert ab[1..] == a[1..] + b;
      ReplaceCharAppend(a[1..], b, c, rep);
    }
  }
}
