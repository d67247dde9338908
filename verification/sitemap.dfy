/** The sitemap codec: a resource as a `<url>` element, an inventory as a
    `<urlset>` document, and the parse of a document back into an inventory.
    Element names are the resolved `{namespace}local` names; the encoder's
    literal `rs:size`/`rs:md5` names resolve to the ResourceSync namespace
    because the enclosing `<urlset>` declares `xmlns:rs`, and its unprefixed
    names resolve to the sitemap namespace declared as the default. */
module Sitemap {
  import opened Wrappers
  import opened Decimal
  import opened Ordering
  import opened Resources
  import opened Xml

  const UrlsetTag: QName := QName(SitemapNs, "urlset")
  const UrlTag: QName := QName(SitemapNs, "url")
  const LocTag: QName := QName(SitemapNs, "loc")
  const LastmodTag: QName := QName(SitemapNs, "lastmod")
  const SizeTag: QName := QName(RsNs, "size")
  const Md5Tag: QName := QName(RsNs, "md5")
  const SitemapIndexTag: QName := QName(SitemapNs, "sitemapindex")
  const SitemapTag: QName := QName(SitemapNs, "sitemap")

  /** The only names the decoder looks for inside a `<url>`. */
  const FieldTags: set<QName> := {LocTag, LastmodTag, SizeTag, Md5Tag}

  /** Where a property may stand inside `<url>`: loc, lastmod, size, md5;
      anything else ranks last. */
  function FieldRank(t: QName): nat
  {
    if t == LocTag then 0
    else if t == LastmodTag then 1
    else if t == SizeTag then 2
    else if t == Md5Tag then 3
    else 4
  }

  /** Only property elements, each at most once, in the fixed order. */
  predicate InFieldOrder(cs: seq<Element>)
  {
    && (forall i :: 0 <= i < |cs| ==> FieldRank(cs[i].tag) < 4)
    && (forall i, j :: 0 <= i < j < |cs| ==> FieldRank(cs[i].tag) < FieldRank(cs[j].tag))
  }

  /** Appending elements of rank k after elements ranked below k keeps the
      field order. */
  lemma InFieldOrderAppend(a: seq<Element>, b: seq<Element>, k: nat)
    requires k < 4 && |b| <= 1
    requires InFieldOrder(a) && forall x :: x in a ==> FieldRank(x.tag) < k
    requires forall y :: y in b ==> FieldRank(y.tag) == k
    ensures InFieldOrder(a + b)
    ensures forall x :: x in a + b ==> FieldRank(x.tag) <= k
  {
    forall i, j | 0 <= i < j < |a + b|
      ensures FieldRank((a + b)[i].tag) < FieldRank((a + b)[j].tag)
    {
      if i < |a| <= j {
        assert (a + b)[i] in a && (a + b)[j] in b;
      }
    }
  }

  function OptionalLeaf(tag: QName, text: Option<string>): seq<Element>
  {
    if text.Some? then [Leaf(tag, text.value)] else []
  }

  /** `str(resource.size)` when there is a size. */
  function SizeText(size: Option<int>): Option<string>
  {
    if size.Some? then Some(IntToString(size.value)) else None
  }

  /** `resource_etree_element`: `<url>` holding `<loc>` and, for each property
      the resource has, its element. The source guards `<lastmod>` on the
      resource's timestamp and writes its lastmod text; the model keeps the
      two as the single optional `lastmod`. */
  function ResourceElement(r: Resource): Element
  {
    Element(UrlTag, "", [Leaf(LocTag, r.uri)] + OptionalLeaf(LastmodTag, r.lastmod)
                        + OptionalLeaf(SizeTag, SizeText(r.size)) + OptionalLeaf(Md5Tag, r.md5))
  }

  /** What a reader of the `<url>` element finds: `<loc>` first, holding the
      URI; then only property elements, each at most once and in the order
      lastmod, size, md5; each present exactly when the resource has it. */
  lemma ResourceElementShape(r: Resource)
    ensures ResourceElement(r).tag == UrlTag
    ensures |ResourceElement(r).children| > 0 && ResourceElement(r).children[0] == Leaf(LocTag, r.uri)
    ensures InFieldOrder(ResourceElement(r).children)
    ensures forall c :: c in ResourceElement(r).children ==> c.children == []
    ensures FindText(ResourceElement(r), LocTag) == Some(r.uri)
    ensures FindText(ResourceElement(r), LastmodTag) == r.lastmod
    ensures FindText(ResourceElement(r), SizeTag) == SizeText(r.size)
    ensures FindText(ResourceElement(r), Md5Tag) == r.md5
  {
    ResourceElementOrder(r);
    ResourceElementTexts(r);
  }

  lemma ResourceElementOrder(r: Resource)
    ensures |ResourceElement(r).children| > 0 && ResourceElement(r).children[0] == Leaf(LocTag, r.uri)
    ensures InFieldOrder(ResourceElement(r).children)
    ensures forall c :: c in ResourceElement(r).children ==> c.children == []
  {
    var loc := [Leaf(LocTag, r.uri)];
    var lastmod := OptionalLeaf(LastmodTag, r.lastmod);
    var size := OptionalLeaf(SizeTag, SizeText(r.size));
    var md5 := OptionalLeaf(Md5Tag, r.md5);
    assert ResourceElement(r).children == loc + lastmod + size + md5;
    InFieldOrderAppend(loc, lastmod, 1);
    InFieldOrderAppend(loc + lastmod, size, 2);
    InFieldOrderAppend(loc + lastmod + size, md5, 3);
  }

  lemma ResourceElementTexts(r: Resource)
    ensures FindText(ResourceElement(r), LocTag) == Some(r.uri)
    ensures FindText(ResourceElement(r), LastmodTag) == r.lastmod
    ensures FindText(ResourceElement(r), SizeTag) == SizeText(r.size)
    ensures FindText(ResourceElement(r), Md5Tag) == r.md5
  {
    var loc := [Leaf(LocTag, r.uri)];
    var lastmod := OptionalLeaf(LastmodTag, r.lastmod);
    var size := OptionalLeaf(SizeTag, SizeText(r.size));
    var md5 := OptionalLeaf(Md5Tag, r.md5);
    assert ResourceElement(r).children == loc + lastmod + size + md5;
    assert FindText(ResourceElement(r), LastmodTag) == r.lastmod by {
      FindTextOfParts(loc, lastmod, size, md5, LastmodTag);
    }
    assert FindText(ResourceElement(r), SizeTag) == SizeText(r.size) by {
      FindTextOfParts(loc, lastmod, size, md5, SizeTag);
    }
    assert FindText(ResourceElement(r), Md5Tag) == r.md5 by {
      FindTextOfParts(loc, lastmod, size, md5, Md5Tag);
    }
  }

  lemma FindTextOfParts(a: seq<Element>, b: seq<Element>, c: seq<Element>, d: seq<Element>, t: QName)
    ensures FirstText(a + b + c + d, t) == FirstText(a, t).OrElse(FirstText(b, t)).OrElse(FirstText(c, t)).OrElse(FirstText(d, t))
  {
    FirstTextAppend(a + b + c, d, t);
    FirstTextAppend(a + b, c, t);
    FirstTextAppend(a, b, t);
  }

  datatype DecodeError =
    | MissingLoc          // a `<url>` without `<loc>`
    | BadSize(text: string) // `int()` refused the `<rs:size>` text

  /** `resource_from_etree`: the first `<loc>` gives the URI and is required;
      the first `<lastmod>`, `<rs:size>` and `<rs:md5>` fill the optional
      properties; a size text that is not an integer is an error. */
  function ResourceFromElement(e: Element): Result<Resource, DecodeError>
  {
    match FindText(e, LocTag)
    case None => Err(MissingLoc)
    case Some(loc) =>
      var lastmod := FindText(e, LastmodTag);
      var sizeText := FindText(e, SizeTag);
      if sizeText.Some? && ParseInt(sizeText.value).None? then
        Err(BadSize(sizeText.value))
      else
        var size := if sizeText.Some? then ParseInt(sizeText.value) else None;
        Ok(Resource(loc, lastmod, size, FindText(e, Md5Tag)))
  }

  /** When decoding fails and what a successful decode holds: a missing
      `<loc>` is an error, and so is a size text `int()` refuses; otherwise
      each property is the text of the first matching child. */
  lemma DecodeOutcome(e: Element)
    ensures FindText(e, LocTag).None? ==> ResourceFromElement(e) == Err(MissingLoc)
    ensures (FindText(e, LocTag).Some? && FindText(e, SizeTag).Some? && ParseInt(FindText(e, SizeTag).value).None?)
              ==> ResourceFromElement(e) == Err(BadSize(FindText(e, SizeTag).value))
    ensures ResourceFromElement(e).Ok? <==>
              FindText(e, LocTag).Some? && (FindText(e, SizeTag).None? || ParseInt(FindText(e, SizeTag).value).Some?)
    ensures ResourceFromElement(e).Ok? ==>
              var r := ResourceFromElement(e).value;
              && Some(r.uri) == FindText(e, LocTag)
              && r.lastmod == FindText(e, LastmodTag)
              && r.md5 == FindText(e, Md5Tag)
              && (r.size.Some? <==> FindText(e, SizeTag).Some?)
              && (r.size.Some? ==> ParseInt(FindText(e, SizeTag).value) == r.size)
  {
  }

  /** Decoding reads only the sitemap `loc`/`lastmod` and ResourceSync
      `size`/`md5` children: the element's own name, its text and every other
      child, in whatever namespace, make no difference. */
  lemma DecodeIgnoresOtherElements(e: Element, e': Element)
    requires Select(e.children, FieldTags) == Select(e'.children, FieldTags)
    ensures ResourceFromElement(e) == ResourceFromElement(e')
  {
    forall t | t in FieldTags
      ensures FindText(e, t) == FindText(e', t)
    {
      FirstTextSelect(e.children, FieldTags, t);
      FirstTextSelect(e'.children, FieldTags, t);
    }
  }

  /** Decoding the element written for a resource gives back its URI, size
      and digest. */
  lemma ResourceRoundTrip(r: Resource)
    ensures ResourceFromElement(ResourceElement(r)).Ok?
    ensures ResourceFromElement(ResourceElement(r)).value.uri == r.uri
    ensures ResourceFromElement(ResourceElement(r)).value.size == r.size
    ensures ResourceFromElement(ResourceElement(r)).value.md5 == r.md5
  {
    var e := ResourceElement(r);
    ResourceElementShape(r);
    DecodeOutcome(e);
    if r.size.Some? {
      ParseIntToString(r.size.value);
    }
  }

  datatype EncodeError = KeyNotFound(key: string)

  /** The first key of `keys` the inventory lacks, where `inventory.resources[k]`
      raises KeyError. */
  function FirstMissing(keys: seq<string>, inv: Inventory): (r: Option<string>)
    ensures r.None? <==> forall i :: 0 <= i < |keys| ==> keys[i] in inv
    ensures r.Some? ==> exists i :: 0 <= i < |keys| && keys[i] == r.value && r.value !in inv
                                    && forall j :: 0 <= j < i ==> keys[j] in inv
  {
    if |keys| == 0 then None
    else if keys[0] !in inv then Some(keys[0])
    else
      var r := FirstMissing(keys[1..], inv);
      assert forall i :: 1 <= i < |keys| ==> keys[i] == keys[1..][i - 1];
      r
  }

  /** The `<loc>` text of each child, in document order. */
  function Locs(doc: Element): seq<string>
  {
    seq(|doc.children|, i requires 0 <= i < |doc.children| => FindText(doc.children[i], LocTag).GetOr(""))
  }

  /** `inventory_as_xml`: a `<urlset>` with one `<url>` per entry; without
      `entries` the entries are the inventory's keys in sorted order. */
  function InventoryAsXml(inv: Inventory, entries: Option<seq<string>>): (r: Result<Element, EncodeError>)
    ensures entries.None? ==> r.Ok?
    ensures entries.Some? ==> (r.Ok? <==> forall k :: k in entries.value ==> k in inv)
    ensures r.Err? ==> r.error.key in entries.value && r.error.key !in inv
    ensures r.Ok? ==> r.value.tag == UrlsetTag
    ensures r.Ok? ==> |r.value.children| == if entries.Some? then |entries.value| else |inv|
    ensures r.Ok? ==> forall i :: 0 <= i < |r.value.children| ==> r.value.children[i].tag == UrlTag
  {
    var keys := if entries.Some? then entries.value else SortedKeys(inv.Keys);
    match FirstMissing(keys, inv)
    case Some(k) => Err(KeyNotFound(k))
    case None =>
      Ok(Element(UrlsetTag, "", seq(|keys|, i requires 0 <= i < |keys| => ResourceElement(inv[keys[i]]))))
  }

  lemma LocsOfUrlset(inv: Inventory, keys: seq<string>, doc: Element)
    requires WellKeyed(inv)
    requires forall i :: 0 <= i < |keys| ==> keys[i] in inv
    requires doc == Element(UrlsetTag, "", seq(|keys|, i requires 0 <= i < |keys| => ResourceElement(inv[keys[i]])))
    ensures Locs(doc) == keys
  {
    forall i | 0 <= i < |keys|
      ensures Locs(doc)[i] == keys[i]
    {
      assert FindText(doc.children[i], LocTag) == Some(inv[keys[i]].uri);
    }
  }

  /** With `entries` omitted, every key of the inventory appears exactly once,
      in ascending order, however the inventory was filled. */
  lemma InventoryAsXmlSorted(inv: Inventory)
    requires WellKeyed(inv)
    ensures InventoryAsXml(inv, None).Ok?
    ensures StrictlySorted(Locs(InventoryAsXml(inv, None).value))
    ensures forall k :: k in Locs(InventoryAsXml(inv, None).value) <==> k in inv
  {
    LocsOfUrlset(inv, SortedKeys(inv.Keys), InventoryAsXml(inv, None).value);
  }

  /** Any ascending listing of the inventory's keys is the order in which
      the document lists them. */
  lemma InventoryAsXmlListing(inv: Inventory, keys: seq<string>)
    requires WellKeyed(inv)
    requires StrictlySorted(keys) && forall k :: k in keys <==> k in inv
    ensures Locs(InventoryAsXml(inv, None).value) == keys
  {
    InventoryAsXmlSorted(inv);
    SortedListingUnique(Locs(InventoryAsXml(inv, None).value), keys);
  }

  /** With `entries` given, exactly those entries appear, in that order. */
  lemma InventoryAsXmlEntries(inv: Inventory, entries: seq<string>)
    requires WellKeyed(inv)
    requires forall k :: k in entries ==> k in inv
    ensures InventoryAsXml(inv, Some(entries)).Ok?
    ensures Locs(InventoryAsXml(inv, Some(entries)).value) == entries
  {
    LocsOfUrlset(inv, entries, InventoryAsXml(inv, Some(entries)).value);
  }

  datatype ParseError =
    | IndexFound(index: Element)  // SitemapIndexError, carrying the parsed index
    | NotSitemap                  // ValueError: neither urlset nor sitemapindex
      /** A `<url>` failed to decode; `partial` is the target inventory with the
          entries before it already added, `added` the count reached. */
    | Malformed(reason: DecodeError, partial: Inventory, added: nat)

  /** A successful parse: the filled inventory and `resources_added`. */
  datatype Parsed = Parsed(inventory: Inventory, added: nat)

  /** A per-entry decoder. The parse loop below is stated for any decoder
      and used with `ResourceFromElement`; keeping it generic keeps the
      decoder's own definition out of the loop's proofs. */
  type Decoder = Element -> Result<Resource, DecodeError>

  predicate AllDecode(urls: seq<Element>, decode: Decoder)
  {
    forall i :: 0 <= i < |urls| ==> decode(urls[i]).Ok?
  }

  function Decoded(urls: seq<Element>, decode: Decoder): (rs: seq<Resource>)
    requires AllDecode(urls, decode)
    ensures |rs| == |urls|
    ensures forall i :: 0 <= i < |urls| ==> Ok(rs[i]) == decode(urls[i])
  {
    seq(|urls|, i requires 0 <= i < |urls| && AllDecode(urls, decode) => decode(urls[i]).value)
  }

  lemma DecodedCons(urls: seq<Element>, decode: Decoder)
    requires |urls| > 0 && AllDecode(urls, decode)
    ensures AllDecode(urls[1..], decode)
    ensures Decoded(urls, decode) == [decode(urls[0]).value] + Decoded(urls[1..], decode)
  {
    assert forall i :: 1 <= i < |urls| ==> urls[i] == urls[1..][i - 1];
  }

  /** Position of the first entry that does not decode, `|urls|` if none. */
  function FailureIndex(urls: seq<Element>, decode: Decoder): (n: nat)
    ensures n <= |urls|
    ensures AllDecode(urls[..n], decode)
    ensures n < |urls| ==> decode(urls[n]).Err?
  {
    if |urls| == 0 then 0
    else if decode(urls[0]).Err? then 0
    else
      var n := FailureIndex(urls[1..], decode);
      assert forall i :: 0 <= i < n + 1 ==> urls[..n + 1][i] == urls[i];
      assert forall i :: 1 <= i < n + 1 ==> urls[i] == urls[1..][..n][i - 1];
      n + 1
  }

  lemma AllDecodeFailureIndex(urls: seq<Element>, decode: Decoder)
    ensures AllDecode(urls, decode) <==> FailureIndex(urls, decode) == |urls|
  {
    if FailureIndex(urls, decode) == |urls| {
      assert urls[..|urls|] == urls;
    }
  }

  /** The loop of `inventory_parse_xml`: decode each `<url>` and add it,
      counting; the first failure stops the loop. */
  function AddEntries(inv: Inventory, urls: seq<Element>, added: nat, decode: Decoder): Result<Parsed, ParseError>
    decreases |urls|
  {
    if |urls| == 0 then Ok(Parsed(inv, added))
    else
      match decode(urls[0])
      case Err(reason) => Err(Malformed(reason, inv, added))
      case Ok(res) => AddEntries(Add(inv, res), urls[1..], added + 1, decode)
  }

  /** When every `<url>` decodes, all of them are added, in order, and counted. */
  lemma {:induction false} AddEntriesAll(inv: Inventory, urls: seq<Element>, added: nat, decode: Decoder)
    requires AllDecode(urls, decode)
    ensures AddEntries(inv, urls, added, decode) == Ok(Parsed(AddAll(inv, Decoded(urls, decode)), added + |urls|))
    decreases |urls|
  {
    if |urls| > 0 {
      var res := decode(urls[0]).value;
      var ds := Decoded(urls, decode);
      DecodedCons(urls, decode);
      var m := AddAll(Add(inv, res), Decoded(urls[1..], decode));
      assert AddAll(inv, ds) == m by {
        assert ds[0] == res && ds[1..] == Decoded(urls[1..], decode);
        AddAllCons(inv, ds);
      }
      AddEntriesAll(Add(inv, res), urls[1..], added + 1, decode);
      assert AddEntries(inv, urls, added, decode) == AddEntries(Add(inv, res), urls[1..], added + 1, decode);
    }
  }

  /** When the `<url>` at position n is the first that does not decode, the
      parse fails with its error, and the n entries before it have already
      been added and counted: the parse is not atomic. */
  lemma {:induction false} AddEntriesFails(inv: Inventory, urls: seq<Element>, added: nat, decode: Decoder, n: nat)
    requires n < |urls| && AllDecode(urls[..n], decode) && decode(urls[n]).Err?
    ensures AddEntries(inv, urls, added, decode)
              == Err(Malformed(decode(urls[n]).error, AddAll(inv, Decoded(urls[..n], decode)), added + n))
    decreases n
  {
    var pre := urls[..n];
    if n > 0 {
      assert pre[0] == urls[0];
      var res := decode(urls[0]).value;
      var rest := urls[1..];
      assert rest[..n - 1] == pre[1..];
      assert rest[n - 1] == urls[n];
      DecodedCons(pre, decode);
      var ds := Decoded(pre, decode);
      var m := AddAll(Add(inv, res), Decoded(rest[..n - 1], decode));
      assert AddAll(inv, ds) == m by {
        assert ds[0] == res && ds[1..] == Decoded(rest[..n - 1], decode);
        AddAllCons(inv, ds);
      }
      AddEntriesFails(Add(inv, res), rest, added + 1, decode, n - 1);
      assert AddEntries(inv, urls, added, decode) == AddEntries(Add(inv, res), rest, added + 1, decode);
    } else {
      assert pre == [];
    }
  }

  /** `inventory_parse_xml`, dispatching on the root element; `target` is the
      inventory passed in, `None` for a fresh one. */
  function ParseXml(root: Element, target: Option<Inventory>): (r: Result<Parsed, ParseError>)
    ensures root.tag == SitemapIndexTag ==> r == Err(IndexFound(root))
    ensures root.tag != UrlsetTag && root.tag != SitemapIndexTag ==> r == Err(NotSitemap)
    ensures root.tag == UrlsetTag ==> (r.Ok? <==> AllDecode(FindAll(root, UrlTag), ResourceFromElement))
    ensures root.tag == UrlsetTag && r.Ok? ==>
              && r.value.added == |FindAll(root, UrlTag)|
              && r.value.inventory == AddAll(target.GetOr(map[]), Decoded(FindAll(root, UrlTag), ResourceFromElement))
    ensures root.tag == UrlsetTag && r.Err? ==>
              var urls := FindAll(root, UrlTag);
              var n := FailureIndex(urls, ResourceFromElement);
              && n < |urls|
              && r.error == Malformed(ResourceFromElement(urls[n]).error,
                                      AddAll(target.GetOr(map[]), Decoded(urls[..n], ResourceFromElement)), n)
  {
    var inv := target.GetOr(map[]);
    if root.tag == UrlsetTag then
      var urls := FindAll(root, UrlTag);
      if AllDecode(urls, ResourceFromElement) then
        AddEntriesAll(inv, urls, 0, ResourceFromElement);
        AddEntries(inv, urls, 0, ResourceFromElement)
      else
        AllDecodeFailureIndex(urls, ResourceFromElement);
        AddEntriesFails(inv, urls, 0, ResourceFromElement, FailureIndex(urls, ResourceFromElement));
        AddEntries(inv, urls, 0, ResourceFromElement)
    else if root.tag == SitemapIndexTag then
      Err(IndexFound(root))
    else
      Err(NotSitemap)
  }

  /** Same URI, size and digest: what the codec carries through unchanged. */
  predicate SameCore(a: Resource, b: Resource)
  {
    a.uri == b.uri && a.size == b.size && a.md5 == b.md5
  }

  /** The url entries of the document written for a whole inventory. */
  function Entries(inv: Inventory): seq<Element>
  {
    FindAll(InventoryAsXml(inv, None).value, UrlTag)
  }

  /** The entries of the document written for a whole inventory decode, in
      key order, to resources that agree with the inventory's. */
  lemma DecodedInventory(inv: Inventory)
    requires WellKeyed(inv)
    ensures AllDecode(Entries(inv), ResourceFromElement)
    ensures var ds := Decoded(Entries(inv), ResourceFromElement);
            var keys := SortedKeys(inv.Keys);
            && |ds| == |keys|
            && forall i :: 0 <= i < |keys| ==> ds[i].uri == keys[i] && SameCore(ds[i], inv[keys[i]])
  {
    var keys := SortedKeys(inv.Keys);
    var urls := Entries(inv);
    EntriesInOrder(inv);
    forall i | 0 <= i < |urls|
      ensures ResourceFromElement(urls[i]).Ok?
      ensures SameCore(ResourceFromElement(urls[i]).value, inv[keys[i]])
    {
      ResourceRoundTrip(inv[keys[i]]);
    }
  }

  /** The url entries written for an inventory are its resources' elements,
      in key order. */
  lemma EntriesInOrder(inv: Inventory)
    ensures var keys := SortedKeys(inv.Keys);
            && |Entries(inv)| == |keys|
            && forall i :: 0 <= i < |keys| ==> Entries(inv)[i] == ResourceElement(inv[keys[i]])
  {
    EntriesAreChildren(inv);
    UrlsetChildren(inv);
  }

  lemma EntriesAreChildren(inv: Inventory)
    ensures Entries(inv) == InventoryAsXml(inv, None).value.children
  {
    SelectAll(InventoryAsXml(inv, None).value.children, {UrlTag});
  }

  lemma UrlsetChildren(inv: Inventory)
    ensures var keys := SortedKeys(inv.Keys);
            InventoryAsXml(inv, None).value.children == seq(|keys|, i requires 0 <= i < |keys| => ResourceElement(inv[keys[i]]))
  {
  }

  /** Reading back resources that list an inventory's keys once each, into an
      empty inventory, restores every key with the same URI, size and digest. */
  lemma ReadBack(inv: Inventory, keys: seq<string>, ds: seq<Resource>)
    requires |ds| == |keys|
    requires forall i, j :: 0 <= i < j < |keys| ==> keys[i] != keys[j]
    requires forall k :: k in inv <==> k in keys
    requires forall i :: 0 <= i < |ds| ==> ds[i].uri == keys[i] && keys[i] in inv && SameCore(ds[i], inv[keys[i]])
    ensures AddAll(map[], ds).Keys == inv.Keys
    ensures forall k :: k in inv ==> SameCore(AddAll(map[], ds)[k], inv[k])
  {
    var out := AddAll(map[], ds);
    AddAllSpec(map[], ds);
    forall k | k in inv ensures k in Uris(ds) {
      var i :| 0 <= i < |keys| && keys[i] == k;
      assert ds[i].uri == k;
    }
    AddAllDistinct(map[], ds);
    forall k | k in inv
      ensures SameCore(out[k], inv[k])
    {
      var i :| 0 <= i < |keys| && keys[i] == k;
      assert out[ds[i].uri] == ds[i];
    }
  }

  /** Parsing the document written for an inventory gives back the same keys,
      each with the same URI, size and digest, and counts every entry. */
  lemma InventoryRoundTrip(inv: Inventory)
    requires WellKeyed(inv)
    ensures InventoryAsXml(inv, None).Ok?
    ensures var p := ParseXml(InventoryAsXml(inv, None).value, None);
            && p.Ok? && p.value.added == |inv|
            && p.value.inventory.Keys == inv.Keys
            && forall k :: k in inv ==> SameCore(p.value.inventory[k], inv[k])
  {
    DecodedInventory(inv);
    SortedDistinct(SortedKeys(inv.Keys));
    ReadBack(inv, SortedKeys(inv.Keys), Decoded(Entries(inv), ResourceFromElement));
    var doc := InventoryAsXml(inv, None).value;
    assert doc.tag == UrlsetTag;
    assert FindAll(doc, UrlTag) == Entries(inv);
  }
}
