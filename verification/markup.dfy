/** A parsed XML or HTML document as the `lxml` element API presents it, and
    the two XPath shapes the converter evaluates on it: `//t` and `//p/t`.
    Namespaced tags are written in `{namespace}local` form, as `lxml` does. */
module Markup {
  import opened Wrappers
  import opened Common

  /** An element: its tag, attributes, the text before its first child, its
      children, and the tail text that follows its end tag inside the
      parent. */
  datatype Element = Element(
    tag: string,
    attrs: map<string, string>,
    text: Option<string>,
    children: seq<Element>,
    tail: Option<string>)

  /** `element.get(name)`. */
  function Get(e: Element, name: string): (r: Option<string>)
    ensures r.Some? <==> name in e.attrs
    ensures r.Some? ==> r.value == e.attrs[name]
  {
    if name in e.attrs then Some(e.attrs[name]) else None
  }

  /** The element and all its descendants in document order (pre-order). */
  function Descendants(e: Element): (r: seq<Element>)
    ensures |r| > 0 && r[0] == e
    decreases e, 1
  {
    [e] + DescendantsIn(e.children)
  }

  function DescendantsIn(es: seq<Element>): seq<Element>
    decreases es, 0
  {
    if |es| == 0 then [] else Descendants(es[0]) + DescendantsIn(es[1..])
  }

  /** Every element with its parent's tag (None for the root), in document
      order. */
  function WithParentTag(e: Element, parent: Option<string>): (r: seq<(Option<string>, Element)>)
    ensures |r| > 0 && r[0] == (parent, e)
    decreases e, 1
  {
    [(parent, e)] + WithParentTagIn(e.children, e.tag)
  }

  function WithParentTagIn(es: seq<Element>, parent: string): seq<(Option<string>, Element)>
    decreases es, 0
  {
    if |es| == 0 then []
    else WithParentTag(es[0], Some(parent)) + WithParentTagIn(es[1..], parent)
  }

  /** `root.xpath("//tag")`: the elements of the whole document with that tag,
      the root included, in document order. */
  function FindAll(root: Element, tag: string): (r: seq<Element>)
    ensures forall i :: 0 <= i < |r| ==> r[i].tag == tag && r[i] in Descendants(root)
    ensures forall x :: x in Descendants(root) && x.tag == tag ==> x in r
    ensures root.tag == tag ==> |r| > 0 && r[0] == root
    ensures IsSubsequence(r, Descendants(root))
    ensures forall x :: multiset(r)[x] == if x.tag == tag then multiset(Descendants(root))[x] else 0
  {
    var r := Filter(Descendants(root), (x: Element) => x.tag == tag);
    assert forall i :: 0 <= i < |Descendants(root)| && Descendants(root)[i].tag == tag ==> Descendants(root)[i] in r;
    FilterCounts(Descendants(root), (x: Element) => x.tag == tag);
    r
  }

  /** The elements of a list of (parent tag, element) pairs, in order. */
  function Elements(ps: seq<(Option<string>, Element)>): (r: seq<Element>)
    ensures |r| == |ps|
    ensures forall i :: 0 <= i < |ps| ==> r[i] == ps[i].1
  {
    if |ps| == 0 then [] else [ps[0].1] + Elements(ps[1..])
  }

  lemma {:induction false} ElementsAppend(a: seq<(Option<string>, Element)>, b: seq<(Option<string>, Element)>)
    ensures Elements(a + b) == Elements(a) + Elements(b)
  {
    if |a| > 0 {
      assert (a + b)[1..] == a[1..] + b;
      ElementsAppend(a[1..], b);
    } else {
      assert a + b == b;
    }
  }

  /** Pairing each element with its parent's tag walks the document in the
      same order as `Descendants`. */
  lemma {:induction false} ElementsOfWithParentTag(e: Element, parent: Option<string>)
    ensures Elements(WithParentTag(e, parent)) == Descendants(e)
    decreases e, 1
  {
    ElementsOfWithParentTagIn(e.children, e.tag);
    ElementsAppend([(parent, e)], WithParentTagIn(e.children, e.tag));
  }

  lemma {:induction false} ElementsOfWithParentTagIn(es: seq<Element>, parent: string)
    ensures Elements(WithParentTagIn(es, parent)) == DescendantsIn(es)
    decreases es, 0
  {
    if |es| > 0 {
      ElementsOfWithParentTag(es[0], Some(parent));
      ElementsOfWithParentTagIn(es[1..], parent);
      ElementsAppend(WithParentTag(es[0], Some(parent)), WithParentTagIn(es[1..], parent));
    }
  }

  /** Taking the elements keeps a subsequence a subsequence. */
  lemma {:induction false} ElementsOfSubsequence(a: seq<(Option<string>, Element)>, b: seq<(Option<string>, Element)>)
    requires IsSubsequence(a, b)
    ensures IsSubsequence(Elements(a), Elements(b))
    decreases |b|
  {
    if |a| > 0 {
      assert |b| > 0;
      assert Elements(a)[1..] == Elements(a[1..]);
      assert Elements(b)[1..] == Elements(b[1..]);
      if a[0] == b[0] && IsSubsequence(a[1..], b[1..]) {
        ElementsOfSubsequence(a[1..], b[1..]);
      } else {
        ElementsOfSubsequence(a, b[1..]);
      }
    }
  }

  /** When every pair has the same parent tag, an element occurs among the
      elements as often as its pair occurs among the pairs. */
  lemma {:induction false} ElementsCount(ps: seq<(Option<string>, Element)>, p: Option<string>, x: Element)
    requires forall i :: 0 <= i < |ps| ==> ps[i].0 == p
    ensures multiset(Elements(ps))[x] == multiset(ps)[(p, x)]
  {
    if |ps| > 0 {
      ElementsCount(ps[1..], p, x);
      CountHeadTail(ps, (p, x));
      CountHeadTail(Elements(ps), x);
      assert Elements(ps)[1..] == Elements(ps[1..]);
    }
  }

  /** The test `//parent/tag` applies to a (parent tag, element) pair. */
  function ChildTest(parent: string, tag: string): ((Option<string>, Element)) -> bool {
    (pe: (Option<string>, Element)) => pe.0 == Some(parent) && pe.1.tag == tag
  }

  /** The elements of the pairs that pass the test: exactly the `tag`
      elements paired with `parent`, each as often as its pair occurs, in
      the pairs' order. */
  lemma ChildHits(all: seq<(Option<string>, Element)>, parent: string, tag: string)
    ensures var r := Elements(Filter(all, ChildTest(parent, tag)));
            && (forall i :: 0 <= i < |r| ==> r[i].tag == tag && (Some(parent), r[i]) in all)
            && (forall x :: (Some(parent), x) in all && x.tag == tag ==> x in r)
            && IsSubsequence(r, Elements(all))
            && (forall x :: multiset(r)[x] == if x.tag == tag then multiset(all)[(Some(parent), x)] else 0)
  {
    var hits := Filter(all, ChildTest(parent, tag));
    var r := Elements(hits);
    forall x | (Some(parent), x) in all && x.tag == tag
      ensures x in r
    {
      var i :| 0 <= i < |all| && all[i] == (Some(parent), x);
      assert ChildTest(parent, tag)(all[i]);
      var k :| 0 <= k < |hits| && hits[k] == (Some(parent), x);
      assert r[k] == x;
    }
    ElementsOfSubsequence(hits, all);
    FilterCounts(all, ChildTest(parent, tag));
    forall x
      ensures multiset(r)[x] == if x.tag == tag then multiset(all)[(Some(parent), x)] else 0
    {
      ElementsCount(hits, Some(parent), x);
    }
  }

  /** `root.xpath("//parent/tag")`: the elements with tag `tag` whose parent
      has tag `parent`, in document order, each as often as it occurs there. */
  function FindChildrenOf(root: Element, parent: string, tag: string): (r: seq<Element>)
    ensures forall i :: 0 <= i < |r| ==> r[i].tag == tag && (Some(parent), r[i]) in WithParentTag(root, None)
    ensures forall x :: (Some(parent), x) in WithParentTag(root, None) && x.tag == tag ==> x in r
    ensures IsSubsequence(r, Descendants(root))
    ensures forall x :: multiset(r)[x] == if x.tag == tag then multiset(WithParentTag(root, None))[(Some(parent), x)] else 0
  {
    ChildHits(WithParentTag(root, None), parent, tag);
    ElementsOfWithParentTag(root, None);
    Elements(Filter(WithParentTag(root, None), ChildTest(parent, tag)))
  }
}
