/**
  A parsed SOAP response, as the service reads it through jQuery: the
  document's elements in document order, each with a tag name and its
  attributes. `find(tag)` selects the elements with that tag, `attr(name)`
  reads one attribute, and `each` visits the found elements in order.
*/
module Documents {
  import opened Js

  datatype Element = Element(tag: string, attributes: map<string, string>)

  /** All elements of a document, in document order. */
  type Document = seq<Element>

  /** jQuery's `attr(name)`: the attribute's text, or undefined when the
      element has no such attribute. */
  function Attr(e: Element, name: string): (v: JsValue)
    ensures v.Str? <==> name in e.attributes
    ensures v.Str? ==> v.s == e.attributes[name]
    ensures !v.Str? ==> v == Undefined
  {
    if name in e.attributes then Str(e.attributes[name]) else Undefined
  }

  /** jQuery's `find(tag)`: the elements carrying that tag, in document order. */
  function Find(doc: Document, tag: string): (found: seq<Element>)
    ensures |found| <= |doc|
    ensures forall e :: e in found <==> e in doc && e.tag == tag
  {
    if doc == [] then []
    else
      var last := doc[|doc| - 1];
      Find(doc[..|doc| - 1], tag) + (if last.tag == tag then [last] else [])
  }

  /** Finding in a document made of two parts finds in the first part, then
      in the second: document order is kept. */
  lemma {:induction false} FindConcat(a: Document, b: Document, tag: string)
    ensures Find(a + b, tag) == Find(a, tag) + Find(b, tag)
    decreases |b|
  {
    if b == [] {
      assert a + b == a;
    } else {
      var b' := b[..|b| - 1];
      var last := b[|b| - 1];
      var tail := if last.tag == tag then [last] else [];
      FindConcat(a, b', tag);
      assert (a + b)[..|a + b| - 1] == a + b';
      assert (a + b)[|a + b| - 1] == last;
      calc {
        Find(a + b, tag);
        Find(a + b', tag) + tail;
        (Find(a, tag) + Find(b', tag)) + tail;
        Find(a, tag) + (Find(b', tag) + tail);
        Find(a, tag) + Find(b, tag);
      }
    }
  }

  /** `find(tag).each(...)` where each visit pushes `build(element)` onto the
      sink: one new entry per found element, in document order, after the
      sink's earlier entries. */
  method AppendEach<T>(sink: seq<T>, doc: Document, tag: string, build: Element -> T) returns (out: seq<T>)
    ensures |out| == |sink| + |Find(doc, tag)|
    ensures out[..|sink|] == sink
    ensures forall i | 0 <= i < |Find(doc, tag)| :: out[|sink| + i] == build(Find(doc, tag)[i])
  {
    out := sink;
    var k := 0;
    while k < |doc|
      invariant 0 <= k <= |doc|
      invariant |out| == |sink| + |Find(doc[..k], tag)|
      invariant out[..|sink|] == sink
      invariant forall i | 0 <= i < |Find(doc[..k], tag)| :: out[|sink| + i] == build(Find(doc[..k], tag)[i])
    {
      assert doc[..k + 1][..k] == doc[..k];
      if doc[k].tag == tag {
        out := out + [build(doc[k])];
      }
      k := k + 1;
    }
    assert doc[..|doc|] == doc;
  }
}
