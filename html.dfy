/**
 * An abstract parsed HTML document: just the two capabilities the crawler
 * asks of its parser, "find the first descendant that matches a marker"
 * (which may be absent) and "find all matching descendants, in document
 * order".
 */
module Html {
  import opened Wrappers

  /** One element of the tree. The document itself is the root element. */
  datatype Element = Element(
    tag: string,
    classes: seq<string>,
    href: Option<string>,
    text: string,
    children: seq<Element>)

  /** A structural marker: a tag name and, optionally, one class it must carry. */
  datatype Marker = Marker(tag: string, cls: Option<string>)

  predicate Matches(e: Element, m: Marker)
  {
    e.tag == m.tag && (m.cls.Some? ==> m.cls.value in e.classes)
  }

  /** All elements below the given forest, in document (pre-)order. */
  function DescendantsOf(cs: seq<Element>): seq<Element>
    decreases cs
  {
    if cs == [] then []
    else [cs[0]] + DescendantsOf(cs[0].children) + DescendantsOf(cs[1..])
  }

  /** All elements strictly below `e`, in document order. */
  function Descendants(e: Element): seq<Element>
  {
    DescendantsOf(e.children)
  }

  function Filter(es: seq<Element>, m: Marker): seq<Element>
  {
    if es == [] then []
    else if Matches(es[0], m) then [es[0]] + Filter(es[1..], m)
    else Filter(es[1..], m)
  }

  lemma {:induction false} FilterAppend(a: seq<Element>, b: seq<Element>, m: Marker)
    ensures Filter(a + b, m) == Filter(a, m) + Filter(b, m)
  {
    if a != [] {
      assert (a + b)[1..] == a[1..] + b;
      FilterAppend(a[1..], b, m);
    } else {
      assert a + b == b;
    }
  }

  /** The `find_all(marker)` of the parser: matching descendants in document order. */
  function FindAll(e: Element, m: Marker): seq<Element>
  {
    Filter(Descendants(e), m)
  }

  /** Depth-first search for the first match in a forest. */
  function FindIn(cs: seq<Element>, m: Marker): Option<Element>
    decreases cs
  {
    if cs == [] then None
    else if Matches(cs[0], m) then Some(cs[0])
    else
      match FindIn(cs[0].children, m)
      case Some(x) => Some(x)
      case None => FindIn(cs[1..], m)
  }

  /** The `find(marker)` of the parser. */
  function Find(e: Element, m: Marker): Option<Element>
  {
    FindIn(e.children, m)
  }

  lemma {:induction false} FindInIsFirstOfFilter(cs: seq<Element>, m: Marker)
    ensures FindIn(cs, m) == if Filter(DescendantsOf(cs), m) == [] then None
                             else Some(Filter(DescendantsOf(cs), m)[0])
    decreases cs
  {
    if cs != [] {
      var inner := DescendantsOf(cs[0].children);
      var rest := DescendantsOf(cs[1..]);
      assert DescendantsOf(cs) == [cs[0]] + (inner + rest);
      FilterAppend([cs[0]], inner + rest, m);
      FilterAppend(inner, rest, m);
      FindInIsFirstOfFilter(cs[0].children, m);
      FindInIsFirstOfFilter(cs[1..], m);
    }
  }

  /** `find` returns exactly the first element `find_all` would return, and nothing when it returns none. */
  lemma FindIsFirstOfFindAll(e: Element, m: Marker)
    ensures Find(e, m).None? <==> FindAll(e, m) == []
    ensures Find(e, m).Some? ==> Find(e, m).value == FindAll(e, m)[0]
  {
    FindInIsFirstOfFilter(e.children, m);
  }
}
