/** XML documents as element trees with namespace-resolved names, the form
    in which the codec builds and inspects them. Serialisation to bytes and
    parsing from bytes are not part of this model. */
module Xml {
  import opened Wrappers

  const SitemapNs: string := "http://www.sitemaps.org/schemas/sitemap/0.9"
  const RsNs: string := "http://resourcesync.org/change/0.1"

  /** A resolved name `{ns}local`. */
  datatype QName = QName(ns: string, local: string)

  /** An element: its name, its text ("" when it has none) and its children
      in document order. Attributes and tail text play no part in the codec. */
  datatype Element = Element(tag: QName, text: string, children: seq<Element>)

  function Leaf(tag: QName, text: string): Element
  {
    Element(tag, text, [])
  }

  /** The text of the first element named `tag` in `cs`. */
  function FirstText(cs: seq<Element>, tag: QName): Option<string>
  {
    if |cs| == 0 then None
    else if cs[0].tag == tag then Some(cs[0].text)
    else FirstText(cs[1..], tag)
  }

  /** `FirstText` finds nothing exactly when no element has the name, and
      otherwise the text of the earliest one that has it. */
  lemma {:induction false} FirstTextSpec(cs: seq<Element>, tag: QName)
    ensures FirstText(cs, tag).None? <==> forall i :: 0 <= i < |cs| ==> cs[i].tag != tag
    ensures FirstText(cs, tag).Some? ==>
              exists i :: 0 <= i < |cs| && cs[i].tag == tag && cs[i].text == FirstText(cs, tag).value
                          && forall j :: 0 <= j < i ==> cs[j].tag != tag
  {
    if |cs| > 0 && cs[0].tag != tag {
      FirstTextSpec(cs[1..], tag);
      assert forall i :: 1 <= i < |cs| ==> cs[i] == cs[1..][i - 1];
      if FirstText(cs, tag).Some? {
        var i :| 0 <= i < |cs[1..]| && cs[1..][i].tag == tag && cs[1..][i].text == FirstText(cs, tag).value
                 && forall j :: 0 <= j < i ==> cs[1..][j].tag != tag;
        assert cs[i + 1].tag == tag;
      }
    } else if |cs| > 0 {
      assert cs[0].tag == tag;
    }
  }

  lemma {:induction false} FirstTextAppend(a: seq<Element>, b: seq<Element>, tag: QName)
    ensures FirstText(a + b, tag) == if FirstText(a, tag).Some? then FirstText(a, tag) else FirstText(b, tag)
  {
    if |a| > 0 {
      assert (a + b)[1..] == a[1..] + b;
      FirstTextAppend(a[1..], b, tag);
    } else {
      assert a + b == b;
    }
  }

  /** ElementTree's `e.findtext(tag)`: the text of the first child with that
      name, or `None` when there is none. */
  function FindText(e: Element, tag: QName): Option<string>
  {
    FirstText(e.children, tag)
  }

  /** The elements of `cs` whose names are in `tags`, in order. */
  function Select(cs: seq<Element>, tags: set<QName>): (r: seq<Element>)
    ensures |r| <= |cs|
    ensures forall i :: 0 <= i < |r| ==> r[i].tag in tags
    ensures forall x :: x in r <==> x in cs && x.tag in tags
  {
    if |cs| == 0 then []
    else if cs[0].tag in tags then [cs[0]] + Select(cs[1..], tags)
    else Select(cs[1..], tags)
  }

  /** ElementTree's `e.findall(tag)`: the children with that name, in order. */
  function FindAll(e: Element, tag: QName): seq<Element>
  {
    Select(e.children, {tag})
  }

  /** Dropping elements with other names never changes the first match. */
  lemma {:induction false} FirstTextSelect(cs: seq<Element>, tags: set<QName>, tag: QName)
    requires tag in tags
    ensures FirstText(Select(cs, tags), tag) == FirstText(cs, tag)
  {
    if |cs| > 0 {
      FirstTextSelect(cs[1..], tags, tag);
    }
  }

  lemma {:induction false} SelectAll(cs: seq<Element>, tags: set<QName>)
    requires forall i :: 0 <= i < |cs| ==> cs[i].tag in tags
    ensures Select(cs, tags) == cs
  {
    if |cs| > 0 {
      var rest := cs[1..];
      assert forall i :: 0 <= i < |rest| ==> rest[i].tag in tags by {
        forall i | 0 <= i < |rest| ensures rest[i].tag in tags {
          assert rest[i] == cs[i + 1];
        }
      }
      SelectAll(rest, tags);
      assert cs[0].tag in tags;
      assert Select(cs, tags) == [cs[0]] + Select(rest, tags);
      assert cs == [cs[0]] + rest;
    }
  }

  /** One element is kept exactly when its name is selected. */
  lemma SelectOne(x: Element, tags: set<QName>)
    ensures Select([x], tags) == if x.tag in tags then [x] else []
  {
    assert [x][1..] == [];
  }

  /** Selection keeps document order: selecting from two runs of siblings is
      selecting from each and putting the results one after the other. */
  lemma {:induction false} SelectAppend(a: seq<Element>, b: seq<Element>, tags: set<QName>)
    ensures Select(a + b, tags) == Select(a, tags) + Select(b, tags)
  {
    if |a| > 0 {
      assert (a + b)[0] == a[0];
      assert (a + b)[1..] == a[1..] + b;
      SelectAppend(a[1..], b, tags);
    } else {
      assert a + b == b;
    }
  }
}
