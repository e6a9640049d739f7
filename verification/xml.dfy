/**
 * A parsed XML element and the namespace-agnostic lookups the converter uses
 * (`findall_anyns`, `childall_anyns`, `child_anyns`, `text_of`, `first`,
 * `extract_tag`). A tag keeps its `{namespace-uri}` prefix, as ElementTree
 * reports it; lookups compare only the local part after the last `}`.
 */
module Xml {
  import opened Wrappers
  import opened Text

  /** An ElementTree element: qualified tag, attributes, leading text and children. */
  datatype Element = Element(tag: string, attrib: map<string, string>, text: Option<string>, children: seq<Element>)

  /** `tag.split('}')[-1]`: the local name of a (possibly qualified) tag. */
  function LocalName(tag: string): string {
    AfterLast(tag, '}')
  }

  /** The local name holds no `}`; it is the tail of the tag, all of it for an unqualified tag. */
  lemma LocalNameSpec(tag: string)
    ensures var r := LocalName(tag);
      '}' !in r && |r| <= |tag| && r == tag[|tag| - |r|..] &&
      ('}' !in tag ==> r == tag)
  {
    AfterLastSpec(tag, '}');
    if '}' !in tag { AfterLastNoSep(tag, '}'); }
  }

  /** `extract_tag(element)`: the local name of the element's own tag. */
  function ExtractTag(e: Element): (r: string)
    ensures '}' !in r
    ensures '}' !in e.tag ==> r == e.tag
  {
    LocalNameSpec(e.tag);
    LocalName(e.tag)
  }

  predicate HasLocalName(e: Element, name: string) {
    LocalName(e.tag) == name
  }

  /** `elem.iter()`: the element itself, then its descendants, in document (pre-)order. */
  function Iter(e: Element): seq<Element>
    decreases e, 1
  {
    [e] + IterAll(e.children)
  }

  /** `elem.iter()` starts with the element itself. */
  lemma IterHead(e: Element)
    ensures |Iter(e)| > 0 && Iter(e)[0] == e
  {
  }

  /** The pre-order walks of `es`, one after the other. */
  function IterAll(es: seq<Element>): seq<Element>
    decreases es, 0
  {
    if es == [] then [] else Iter(es[0]) + IterAll(es[1..])
  }

  /** The elements of `xs` whose local name is `name`, in their order in `xs`. */
  function FilterByName(xs: seq<Element>, name: string): seq<Element>
  {
    if xs == [] then []
    else if HasLocalName(xs[0], name) then [xs[0]] + FilterByName(xs[1..], name)
    else FilterByName(xs[1..], name)
  }

  /** Filtering keeps exactly the elements with the local name. */
  lemma {:induction false} FilterByNameMembers(xs: seq<Element>, name: string)
    ensures forall x :: x in FilterByName(xs, name) <==> x in xs && HasLocalName(x, name)
  {
    if xs != [] {
      FilterByNameMembers(xs[1..], name);
      assert xs == [xs[0]] + xs[1..];
    }
  }

  /** Filtering keeps relative order: it distributes over concatenation. */
  lemma {:induction false} FilterByNameAppend(xs: seq<Element>, ys: seq<Element>, name: string)
    ensures FilterByName(xs + ys, name) == FilterByName(xs, name) + FilterByName(ys, name)
  {
    if xs == [] {
      assert xs + ys == ys;
    } else {
      assert (xs + ys)[0] == xs[0] && (xs + ys)[1..] == xs[1..] + ys;
      FilterByNameAppend(xs[1..], ys, name);
    }
  }

  /** `findall_anyns(elem, name)`: matching nodes of `elem.iter()`, `elem` included. */
  function FindAllAnyNs(e: Element, name: string): seq<Element> {
    FilterByName(Iter(e), name)
  }

  /** `childall_anyns(elem, name)`: matching direct children, in order. */
  function ChildAllAnyNs(e: Element, name: string): seq<Element> {
    FilterByName(e.children, name)
  }

  /** `first(elem_list)`: the head of the list, or `None` for an empty list. */
  function First(xs: seq<Element>): Option<Element>
  {
    if xs == [] then None else Some(xs[0])
  }

  /** `child_anyns(elem, name)`: the first matching direct child, if any. */
  function ChildAnyNs(e: Element, name: string): Option<Element> {
    First(ChildAllAnyNs(e, name))
  }

  /** `text_of(elem)`: the stripped leading text, `""` for no element or no text. */
  function TextOf(e: Option<Element>): (r: string)
    ensures e.None? || e.value.text.None? ==> r == ""
    ensures r == [] || (!IsSpace(r[0]) && !IsSpace(r[|r| - 1]))
  {
    match e
    case None => ""
    case Some(x) =>
      StripSpec(x.text.GetOr(""));
      Strip(x.text.GetOr(""))
  }

  // ---- properties of the walk ----

  /** `findall_anyns` finds exactly the matching nodes of the walk, and `elem` first when it matches. */
  lemma FindAllAnyNsMembers(e: Element, name: string)
    ensures forall x :: x in FindAllAnyNs(e, name) <==> x in Iter(e) && HasLocalName(x, name)
    ensures HasLocalName(e, name) ==> FindAllAnyNs(e, name)[0] == e
  {
    IterHead(e);
    FilterByNameMembers(Iter(e), name);
  }

  /** `child_anyns` is the head of `childall_anyns`, and `None` exactly when that list is empty. */
  lemma ChildAnyNsIsHead(e: Element, name: string)
    ensures ChildAnyNs(e, name).None? <==> (forall c :: c in e.children ==> !HasLocalName(c, name))
    ensures ChildAnyNs(e, name).Some? ==>
              ChildAnyNs(e, name).value in e.children && HasLocalName(ChildAnyNs(e, name).value, name)
    ensures ChildAnyNs(e, name).Some? ==>
              exists i :: 0 <= i < |e.children| && e.children[i] == ChildAnyNs(e, name).value &&
                          forall j :: 0 <= j < i ==> !HasLocalName(e.children[j], name)
  {
    var cs := ChildAllAnyNs(e, name);
    FilterByNameMembers(e.children, name);
    if cs != [] {
      assert cs[0] in cs;
      var i := FilterByNameHead(e.children, name);
    }
  }

  /** The head of the filter is the first element with the local name: none before it has it. */
  lemma {:induction false} FilterByNameHead(xs: seq<Element>, name: string) returns (i: nat)
    requires FilterByName(xs, name) != []
    ensures i < |xs| && xs[i] == FilterByName(xs, name)[0]
    ensures forall j :: 0 <= j < i ==> !HasLocalName(xs[j], name)
  {
    if HasLocalName(xs[0], name) {
      i := 0;
    } else {
      var k := FilterByNameHead(xs[1..], name);
      i := k + 1;
      forall j | 0 <= j < i
        ensures !HasLocalName(xs[j], name)
      {
        if j > 0 { assert xs[j] == xs[1..][j - 1]; }
      }
    }
  }

  /** Every element of a forest's walk lies in the walk of one of its trees. */
  lemma {:induction false} IterAllMember(es: seq<Element>, x: Element)
    requires x in IterAll(es)
    ensures exists i :: 0 <= i < |es| && x in Iter(es[i])
    decreases es
  {
    if es != [] {
      if x !in Iter(es[0]) {
        IterAllMember(es[1..], x);
        var i :| 0 <= i < |es[1..]| && x in Iter(es[1..][i]);
        assert x in Iter(es[i + 1]);
      }
    }
  }

  /** The walk of a tree contains the walk of each of its trees. */
  lemma {:induction false} IterAllContains(es: seq<Element>, i: nat)
    requires i < |es|
    ensures forall y :: y in Iter(es[i]) ==> y in IterAll(es)
    decreases es
  {
    if i > 0 {
      IterAllContains(es[1..], i - 1);
    }
  }

  /** The walk is closed under taking sub-walks: a descendant's descendants are descendants. */
  lemma {:induction false} IterTransitive(e: Element, d: Element, x: Element)
    requires d in Iter(e) && x in Iter(d)
    ensures x in Iter(e)
    decreases e
  {
    if d != e {
      assert d in IterAll(e.children);
      IterAllMember(e.children, d);
      var i :| 0 <= i < |e.children| && d in Iter(e.children[i]);
      IterTransitive(e.children[i], d, x);
      IterAllContains(e.children, i);
    }
  }

  /** What `findall_anyns` finds below a node it found is also found from the root. */
  lemma FindAllAnyNsNested(e: Element, outer: string, d: Element, inner: string, x: Element)
    requires d in FindAllAnyNs(e, outer) && x in FindAllAnyNs(d, inner)
    ensures x in FindAllAnyNs(e, inner)
  {
    FindAllAnyNsMembers(e, outer);
    FindAllAnyNsMembers(d, inner);
    IterTransitive(e, d, x);
    FindAllAnyNsMembers(e, inner);
  }
}
