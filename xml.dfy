/** The part of an ElementTree document the scripts look at. */
module Xml {
  import opened Wrappers

  /** An element: its tag, its text (`None` when the element has no text, as ElementTree reports it)
      and its child elements in document order. */
  datatype Element = Element(tag: string, text: Option<string>, children: seq<Element>)

  /** The index of the first element with that tag. */
  function FirstIndexWithTag(elems: seq<Element>, tag: string): (r: Option<nat>)
    ensures r.None? <==> forall i :: 0 <= i < |elems| ==> elems[i].tag != tag
    ensures r.Some? ==> r.value < |elems| && elems[r.value].tag == tag
                        && forall j :: 0 <= j < r.value ==> elems[j].tag != tag
    decreases |elems|
  {
    if |elems| == 0 then None
    else if elems[0].tag == tag then Some(0)
    else
      var r := FirstIndexWithTag(elems[1..], tag);
      assert forall i :: 1 <= i < |elems| ==> elems[i] == elems[1..][i - 1];
      if r.None? then None else Some(r.value + 1)
  }

  /** `e.find(tag)`: the first child with that tag. */
  function Find(e: Element, tag: string): (r: Option<Element>)
    ensures r.Some? ==> r.value.tag == tag
    ensures r.None? <==> forall i :: 0 <= i < |e.children| ==> e.children[i].tag != tag
  {
    var k := FirstIndexWithTag(e.children, tag);
    if k.None? then None else Some(e.children[k.value])
  }

  function WithTag(elems: seq<Element>, tag: string): (r: seq<Element>)
    ensures forall c :: c in r <==> c in elems && c.tag == tag
    decreases |elems|
  {
    if |elems| == 0 then []
    else (if elems[0].tag == tag then [elems[0]] else []) + WithTag(elems[1..], tag)
  }

  /** `e.findall(tag)`: the children with that tag, in document order. */
  function FindAll(e: Element, tag: string): (r: seq<Element>)
    ensures forall c :: c in r <==> c in e.children && c.tag == tag
  {
    WithTag(e.children, tag)
  }
}
