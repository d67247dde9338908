/** The writing side of `Sitemap`: how `write_sitemap` splits an inventory
    into one sitemap or a set of numbered sitemaps plus a sitemap index, how
    the index is laid out, and how a sitemap file name is mapped into URI
    space. Files are not written here: the outcome is the list of
    (name, document) pairs that would be written, in order. */
module SitemapWriter {
  import opened Wrappers
  import opened Decimal
  import opened Arith
  import opened Ordering
  import opened Resources
  import opened Xml
  import opened Sitemap

  /** The settings of a `Sitemap` object that writing depends on. */
  datatype Config = Config(maxEntries: int, mappings: map<string, string>)

  /** `max_sitemap_entries` is 50000 and there are no mappings to start with. */
  const DefaultConfig := Config(50000, map[])

  // ---------------------------------------------------------------------
  // Naming the pieces of a multi-file sitemap

  predicate EndsWithXml(s: string)
  {
    |s| >= 4 && s[|s| - 4..] == ".xml"
  }

  /** The base name without a trailing ".xml", or unchanged without one. */
  function SitemapPrefix(basename: string): (p: string)
    ensures EndsWithXml(basename) ==> basename == p + ".xml"
    ensures !EndsWithXml(basename) ==> p == basename
  {
    if EndsWithXml(basename) then basename[..|basename| - 4] else basename
  }

  /** Piece k is the prefix, k as five or more zero-padded digits, ".xml". */
  function ChunkName(prefix: string, k: nat): string
  {
    prefix + Pad5(k) + ".xml"
  }

  /** Distinct pieces get distinct file names, so none overwrites another. */
  lemma ChunkNamesDistinct(prefix: string, a: nat, b: nat)
    requires a != b
    ensures ChunkName(prefix, a) != ChunkName(prefix, b)
  {
    if ChunkName(prefix, a) == ChunkName(prefix, b) {
      var n := ChunkName(prefix, a);
      assert |Pad5(a)| == |Pad5(b)|;
      assert Pad5(a) == n[|prefix|..|prefix| + |Pad5(a)|] == Pad5(b);
      Pad5Injective(a, b);
    }
  }

  /** No piece is written under the base name, which the index takes. */
  lemma ChunkNameNotBasename(basename: string, k: nat)
    ensures ChunkName(SitemapPrefix(basename), k) != basename
  {
    assert |ChunkName(SitemapPrefix(basename), k)| >= |basename| + 5;
  }

  // ---------------------------------------------------------------------
  // Splitting the sorted keys

  function Min(a: int, b: int): int
  {
    if a <= b then a else b
  }

  /** Consecutive slices of `keys` of length `m`, the last one shorter when
      `m` does not divide the length: `keys[i:i+m]` for `i` in
      `range(0, len(keys), m)`. */
  function Chunks(keys: seq<string>, m: nat): seq<seq<string>>
    requires m > 0
    decreases |keys|
  {
    if |keys| == 0 then []
    else
      var t := Min(m, |keys|);
      [keys[..t]] + Chunks(keys[t..], m)
  }

  function Flatten(cs: seq<seq<string>>): seq<string>
  {
    if |cs| == 0 then [] else cs[0] + Flatten(cs[1..])
  }

  /** Piece j is `keys[j*m .. (j+1)*m]`, cut short at the end of the keys,
      and the pieces reach exactly to the end. */
  lemma {:induction false} ChunkSlices(keys: seq<string>, m: nat)
    requires m > 0
    ensures |Chunks(keys, m)| * m >= |keys|
    ensures forall j :: 0 <= j < |Chunks(keys, m)| ==>
              j * m < |keys| && Chunks(keys, m)[j] == keys[j * m .. Min((j + 1) * m, |keys|)]
    decreases |keys|
  {
    var r := Chunks(keys, m);
    if 0 < |keys| <= m {
      ChunksStep(keys, m);
      assert |keys[|keys|..]| == 0;
    } else if |keys| > m {
      var rest := Chunks(keys[m..], m);
      ChunksStep(keys, m);
      ChunkSlices(keys[m..], m);
      MulSucc(|rest|, m);
      assert r[0] == keys[0 * m .. Min((0 + 1) * m, |keys|)];
      forall j | 1 <= j < |r|
        ensures j * m < |keys| && r[j] == keys[j * m .. Min((j + 1) * m, |keys|)]
      {
        assert r[j] == rest[j - 1];
        SliceShift(keys, m, j, rest[j - 1]);
      }
    }
  }

  lemma SliceShift(keys: seq<string>, m: nat, j: nat, piece: seq<string>)
    requires m > 0 && |keys| > m && j >= 1
    requires (j - 1) * m < |keys| - m
    requires piece == keys[m..][(j - 1) * m .. Min(j * m, |keys| - m)]
    ensures j * m < |keys| && piece == keys[j * m .. Min((j + 1) * m, |keys|)]
  {
    MulSucc(j - 1, m);
    MulSucc(j, m);
  }

  /** `ceil(n / m)`. */
  function CeilDiv(n: nat, m: nat): nat
    requires m > 0
  {
    (n + m - 1) / m
  }

  /** There are ceil(n / m) pieces. */
  lemma ChunkCount(keys: seq<string>, m: nat)
    requires m > 0
    ensures |Chunks(keys, m)| == CeilDiv(|keys|, m)
  {
    ChunkSlices(keys, m);
    var c := |Chunks(keys, m)|;
    if c > 0 {
      assert (c - 1) * m < |keys|;
      MulSucc(c - 1, m);
    }
    DivUnique(|keys| + m - 1, m, c);
  }

  /** `range(0, n, m)` with a negative step yields nothing, so a negative
      limit gives no pieces at all. */
  function Split(keys: seq<string>, m: int): seq<seq<string>>
    requires m != 0
  {
    if m < 0 then [] else Chunks(keys, m)
  }

  /** Read in order, the pieces give back exactly the keys. */
  lemma {:induction false} ChunksConcat(keys: seq<string>, m: nat)
    requires m > 0
    ensures Flatten(Chunks(keys, m)) == keys
    decreases |keys|
  {
    if |keys| > 0 {
      var t := Min(m, |keys|);
      ChunksStep(keys, m);
      ChunksConcat(keys[t..], m);
    }
  }

  /** The first piece and the pieces of the rest. */
  lemma ChunksStep(keys: seq<string>, m: nat)
    requires m > 0 && |keys| > 0
    ensures var t := Min(m, |keys|);
            && |Chunks(keys, m)| > 0
            && Chunks(keys, m)[0] == keys[..t]
            && Chunks(keys, m)[1..] == Chunks(keys[t..], m)
            && keys == keys[..t] + keys[t..]
  {
  }

  /** Every piece holds between one and `m` keys, and all but the last hold
      exactly `m`. */
  lemma ChunkSizes(keys: seq<string>, m: nat)
    requires m > 0
    ensures forall j :: 0 <= j < |Chunks(keys, m)| ==> 0 < |Chunks(keys, m)[j]| <= m
    ensures forall j :: 0 <= j < |Chunks(keys, m)| - 1 ==> |Chunks(keys, m)[j]| == m
  {
    ChunkSlices(keys, m);
    var r := Chunks(keys, m);
    forall j | 0 <= j < |r| - 1
      ensures |r[j]| == m
    {
      assert (j + 1) * m < |keys|;
    }
  }

  lemma {:induction false} FlattenMember(cs: seq<seq<string>>, j: nat, x: string)
    requires j < |cs| && x in cs[j]
    ensures x in Flatten(cs)
  {
    if j > 0 {
      FlattenMember(cs[1..], j - 1, x);
    }
  }

  /** A key of any piece is one of the keys being split. */
  lemma ChunkMembers(keys: seq<string>, m: nat)
    requires m > 0
    ensures forall j, x :: 0 <= j < |Chunks(keys, m)| && x in Chunks(keys, m)[j] ==> x in keys
  {
    ChunksConcat(keys, m);
    forall j, x | 0 <= j < |Chunks(keys, m)| && x in Chunks(keys, m)[j]
      ensures x in keys
    {
      FlattenMember(Chunks(keys, m), j, x);
    }
  }

  lemma SplitMembers(keys: seq<string>, m: int)
    requires m != 0
    ensures forall j, x :: 0 <= j < |Split(keys, m)| && x in Split(keys, m)[j] ==> x in keys
  {
    if m > 0 {
      ChunkMembers(keys, m);
    }
  }

  // ---------------------------------------------------------------------
  // Mapping a file name into URI space

  /** What `(.*)$` accepts after the mapped prefix: no newline, except one at
      the very end, before which `$` may also match. */
  predicate RestMatches(rest: string)
  {
    forall i :: 0 <= i < |rest| && rest[i] == '\n' ==> i == |rest| - 1
  }

  /** The text the group `(.*)` captures: the rest without that final
      newline. */
  function Group(rest: string): string
  {
    if |rest| > 0 && rest[|rest| - 1] == '\n' then rest[..|rest| - 1] else rest
  }

  /** `re.match(base_path + "(.*)$", file)` succeeds, reading the base path
      as literal text. */
  predicate KeyMatches(base: string, file: string)
  {
    |base| <= |file| && file[..|base|] == base && RestMatches(file[|base|..])
  }

  /** The first key of `keys` that matches decides; with none, the file
      name is returned as it is. */
  function MapWith(keys: seq<string>, mappings: map<string, string>, file: string): string
  {
    if |keys| == 0 then file
    else if keys[0] in mappings && KeyMatches(keys[0], file) then
      mappings[keys[0]] + Group(file[|keys[0]|..])
    else MapWith(keys[1..], mappings, file)
  }

  /** `map_file_to_uri`: the mapping keys are tried in sorted order. */
  function MapFileToUri(mappings: map<string, string>, file: string): string
  {
    MapWith(SortedKeys(mappings.Keys), mappings, file)
  }

  /** The mapping keys that apply to a file. */
  function Applicable(mappings: map<string, string>, file: string): set<string>
  {
    set b | b in mappings && KeyMatches(b, file)
  }

  lemma {:induction false} MapWithFirst(keys: seq<string>, mappings: map<string, string>, file: string, j: nat)
    requires j < |keys| && keys[j] in mappings && KeyMatches(keys[j], file)
    requires forall i :: 0 <= i < j ==> !(keys[i] in mappings && KeyMatches(keys[i], file))
    ensures MapWith(keys, mappings, file) == mappings[keys[j]] + Group(file[|keys[j]|..])
  {
    if j > 0 {
      MapWithFirst(keys[1..], mappings, file, j - 1);
    }
  }

  lemma {:induction false} MapWithNone(keys: seq<string>, mappings: map<string, string>, file: string)
    requires forall i :: 0 <= i < |keys| ==> !(keys[i] in mappings && KeyMatches(keys[i], file))
    ensures MapWith(keys, mappings, file) == file
  {
    if |keys| > 0 {
      MapWithNone(keys[1..], mappings, file);
    }
  }

  /** The smallest applicable key wins and its replacement is put in front
      of the rest of the name; with no applicable key the file name comes
      back unchanged. */
  lemma MapFileToUriSpec(mappings: map<string, string>, file: string)
    ensures Applicable(mappings, file) == {} ==> MapFileToUri(mappings, file) == file
    ensures Applicable(mappings, file) != {} ==>
              var b := Least(Applicable(mappings, file));
              MapFileToUri(mappings, file) == mappings[b] + Group(file[|b|..])
  {
    var keys := SortedKeys(mappings.Keys);
    var app := Applicable(mappings, file);
    if app == {} {
      forall i | 0 <= i < |keys| ensures !(keys[i] in mappings && KeyMatches(keys[i], file)) {
        assert keys[i] !in app;
      }
      MapWithNone(keys, mappings, file);
    } else {
      var b := Least(app);
      assert b in keys;
      var j :| 0 <= j < |keys| && keys[j] == b;
      forall i | 0 <= i < j ensures !(keys[i] in mappings && KeyMatches(keys[i], file)) {
        if keys[i] in app {
          assert Less(keys[i], b);
          LessAsymmetric(keys[i], b);
        }
      }
      MapWithFirst(keys, mappings, file, j);
    }
  }

  /** With no mappings configured every file name is its own URI. */
  lemma MapFileToUriDefault(file: string)
    ensures MapFileToUri(DefaultConfig.mappings, file) == file
  {
    MapFileToUriSpec(DefaultConfig.mappings, file);
  }

  // ---------------------------------------------------------------------
  // The sitemap index

  /** One `<sitemap>` entry: the file's URI and its modification time. */
  function IndexEntry(mappings: map<string, string>, file: string, mtime: Timestamp): Element
  {
    Element(SitemapTag, "", [Leaf(LocTag, MapFileToUri(mappings, file)), Leaf(LastmodTag, mtime)])
  }

  /** `sitemapindex_as_xml`: `sitemaps` lists the dictionary of file names
      and modification times in the order the dictionary yields it. */
  function SitemapIndexAsXml(mappings: map<string, string>, sitemaps: seq<(string, Timestamp)>): Element
  {
    Element(SitemapIndexTag, "", seq(|sitemaps|, i requires 0 <= i < |sitemaps| =>
      IndexEntry(mappings, sitemaps[i].0, sitemaps[i].1)))
  }

  /** The index has one `<sitemap>` per file carrying its mapped URI and its
      time, and a parser handed it reports an index rather than reading it
      as a sitemap. */
  lemma SitemapIndexShape(mappings: map<string, string>, sitemaps: seq<(string, Timestamp)>, target: Option<Inventory>)
    ensures var doc := SitemapIndexAsXml(mappings, sitemaps);
            && doc.tag == SitemapIndexTag
            && |doc.children| == |sitemaps|
            && (forall i :: 0 <= i < |sitemaps| ==>
                  && doc.children[i].tag == SitemapTag
                  && FindText(doc.children[i], LocTag) == Some(MapFileToUri(mappings, sitemaps[i].0))
                  && FindText(doc.children[i], LastmodTag) == Some(sitemaps[i].1))
            && ParseXml(doc, target) == Err(IndexFound(doc))
  {
    var doc := SitemapIndexAsXml(mappings, sitemaps);
    forall i | 0 <= i < |sitemaps|
      ensures FindText(doc.children[i], LocTag) == Some(MapFileToUri(mappings, sitemaps[i].0))
      ensures FindText(doc.children[i], LastmodTag) == Some(sitemaps[i].1)
    {
      var e := IndexEntry(mappings, sitemaps[i].0, sitemaps[i].1);
      assert doc.children[i] == e;
      var cs := e.children;
      assert cs[0].tag == LocTag != LastmodTag;
      assert cs[1..] == [Leaf(LastmodTag, sitemaps[i].1)];
      assert FirstText(cs[1..], LastmodTag) == Some(sitemaps[i].1);
    }
  }

  // ---------------------------------------------------------------------
  // The write plan

  datatype WriteError =
    | TooManyEntries  // more entries than one sitemap may hold, multi-file not allowed
    | ZeroStep        // `range()` refuses a step of zero

  datatype SitemapFile = SitemapFile(name: string, doc: Element)

  datatype Written =
    | Single(file: SitemapFile)
    | Multi(pieces: seq<SitemapFile>, index: SitemapFile)

  /** The sitemap of the given entries of an inventory. */
  function PieceDoc(inv: Inventory, entries: seq<string>): Element
    requires forall k :: k in entries ==> k in inv
  {
    InventoryAsXml(inv, Some(entries)).value
  }

  /** The pieces of a multi-file sitemap, named and filled in order. */
  function Pieces(inv: Inventory, prefix: string, chunks: seq<seq<string>>): (ps: seq<SitemapFile>)
    requires forall j, x :: 0 <= j < |chunks| && x in chunks[j] ==> x in inv
    ensures |ps| == |chunks|
  {
    seq(|chunks|, k requires 0 <= k < |chunks| => SitemapFile(ChunkName(prefix, k), PieceDoc(inv, chunks[k])))
  }

  /** The index lists the pieces with the time `mtime` reports for each. */
  function Listing(ps: seq<SitemapFile>, mtime: string -> Timestamp): seq<(string, Timestamp)>
  {
    seq(|ps|, k requires 0 <= k < |ps| => (ps[k].name, mtime(ps[k].name)))
  }

  /** `write_sitemap`. `mtime` stands for the modification time the file
      system reports for a file just written. */
  function WriteSitemap(cfg: Config, inv: Inventory, basename: string, allowMulti: bool,
                        mtime: string -> Timestamp): (r: Result<Written, WriteError>)
    ensures |inv| <= cfg.maxEntries ==>
              r == Ok(Single(SitemapFile(basename, InventoryAsXml(inv, None).value)))
    ensures |inv| > cfg.maxEntries && !allowMulti ==> r == Err(TooManyEntries)
    ensures |inv| > cfg.maxEntries == 0 && allowMulti ==> r == Err(ZeroStep)
    ensures cfg.maxEntries < 0 && allowMulti ==>
              r == Ok(Multi([], SitemapFile(basename, SitemapIndexAsXml(cfg.mappings, []))))
    ensures r.Ok? && r.value.Multi? ==> r.value.index.name == basename
  {
    if |inv| > cfg.maxEntries then
      if !allowMulti then Err(TooManyEntries)
      else if cfg.maxEntries == 0 then Err(ZeroStep)
      else
        var keys := SortedKeys(inv.Keys);
        var chunks := Split(keys, cfg.maxEntries);
        SplitMembers(keys, cfg.maxEntries);
        var pieces := Pieces(inv, SitemapPrefix(basename), chunks);
        Ok(Multi(pieces, SitemapFile(basename, SitemapIndexAsXml(cfg.mappings, Listing(pieces, mtime)))))
    else
      Ok(Single(SitemapFile(basename, InventoryAsXml(inv, None).value)))
  }

  /** `write_sitemap`'s default file name. */
  const DefaultBasename := "/tmp/sitemap.xml"

  /** `write_sitemap(inventory)` with its defaults (the name
      `/tmp/sitemap.xml`, multi-file not allowed): one sitemap under that
      name when the inventory fits, otherwise the too-many-entries error; a
      split would have numbered its pieces after `/tmp/sitemap`. */
  lemma WriteSitemapDefaults(cfg: Config, inv: Inventory, mtime: string -> Timestamp)
    ensures var r := WriteSitemap(cfg, inv, DefaultBasename, false, mtime);
            if |inv| <= cfg.maxEntries
            then r.Ok? && r.value == Single(SitemapFile("/tmp/sitemap.xml", InventoryAsXml(inv, None).value))
            else r == Err(TooManyEntries)
    ensures SitemapPrefix(DefaultBasename) == "/tmp/sitemap"
  {
    assert DefaultBasename == "/tmp/sitemap" + ".xml";
  }

  /** The keys each piece lists, piece by piece. */
  function PieceLocs(ps: seq<SitemapFile>): seq<seq<string>>
  {
    seq(|ps|, k requires 0 <= k < |ps| => Locs(ps[k].doc))
  }

  /** Over the limit with multi-file allowed: piece k of the write is named
      with number k and lists the k-th slice of the sorted keys, and the
      index under the base name lists every piece. */
  lemma WriteSitemapPieces(cfg: Config, inv: Inventory, basename: string, mtime: string -> Timestamp)
    requires WellKeyed(inv)
    requires |inv| > cfg.maxEntries > 0
    ensures var r := WriteSitemap(cfg, inv, basename, true, mtime);
            && r.Ok? && r.value.Multi?
            && PieceLocs(r.value.pieces) == Chunks(SortedKeys(inv.Keys), cfg.maxEntries)
            && (forall k :: 0 <= k < |r.value.pieces| ==>
                  r.value.pieces[k].name == ChunkName(SitemapPrefix(basename), k))
            && r.value.index == SitemapFile(basename, SitemapIndexAsXml(cfg.mappings, Listing(r.value.pieces, mtime)))
  {
    var keys := SortedKeys(inv.Keys);
    var chunks := Chunks(keys, cfg.maxEntries);
    var prefix := SitemapPrefix(basename);
    ChunkMembers(keys, cfg.maxEntries);
    assert Split(keys, cfg.maxEntries) == chunks;
    var ps := Pieces(inv, prefix, chunks);
    assert WriteSitemap(cfg, inv, basename, true, mtime)
           == Ok(Multi(ps, SitemapFile(basename, SitemapIndexAsXml(cfg.mappings, Listing(ps, mtime)))));
    PiecesListChunks(inv, prefix, chunks);
  }

  /** Each piece lists its own chunk and carries its own number. */
  lemma PiecesListChunks(inv: Inventory, prefix: string, chunks: seq<seq<string>>)
    requires WellKeyed(inv)
    requires forall j, x :: 0 <= j < |chunks| && x in chunks[j] ==> x in inv
    ensures PieceLocs(Pieces(inv, prefix, chunks)) == chunks
    ensures forall k :: 0 <= k < |chunks| ==> Pieces(inv, prefix, chunks)[k].name == ChunkName(prefix, k)
  {
    var ps := Pieces(inv, prefix, chunks);
    forall k | 0 <= k < |ps|
      ensures Locs(ps[k].doc) == chunks[k]
    {
      InventoryAsXmlEntries(inv, chunks[k]);
    }
  }

  /** The properties of any list of pieces named and filled from a split
      of `keys`. */
  lemma PiecesOfSplit(ps: seq<SitemapFile>, keys: seq<string>, m: nat, basename: string)
    requires m > 0
    requires PieceLocs(ps) == Chunks(keys, m)
    requires forall k :: 0 <= k < |ps| ==> ps[k].name == ChunkName(SitemapPrefix(basename), k)
    ensures |ps| == CeilDiv(|keys|, m)
    ensures forall k :: 0 <= k < |ps| ==> ps[k].name != basename
    ensures forall k, l :: 0 <= k < l < |ps| ==> ps[k].name != ps[l].name
    ensures forall k :: 0 <= k < |ps| ==> 0 < |Locs(ps[k].doc)| <= m
    ensures forall k :: 0 <= k < |ps| - 1 ==> |Locs(ps[k].doc)| == m
    ensures Flatten(PieceLocs(ps)) == keys
  {
    ChunkCount(keys, m);
    ChunkSizes(keys, m);
    ChunksConcat(keys, m);
    assert |ps| == |PieceLocs(ps)|;
    forall k | 0 <= k < |ps| ensures ps[k].name != basename && Locs(ps[k].doc) == PieceLocs(ps)[k] {
      ChunkNameNotBasename(basename, k);
    }
    forall k, l | 0 <= k < l < |ps| ensures ps[k].name != ps[l].name {
      ChunkNamesDistinct(SitemapPrefix(basename), k, l);
    }
  }

  /** The split as a whole: ceil(n / m) pieces with distinct names, none of
      them the base name; each holds between one and m keys and all but the
      last exactly m; read in order they list every key once, ascending. */
  lemma WriteSitemapSplit(cfg: Config, inv: Inventory, basename: string, mtime: string -> Timestamp)
    requires WellKeyed(inv)
    requires |inv| > cfg.maxEntries > 0
    ensures var r := WriteSitemap(cfg, inv, basename, true, mtime);
            var m := cfg.maxEntries;
            && r.Ok? && r.value.Multi?
            && |r.value.pieces| == CeilDiv(|inv|, m)
            && (forall k :: 0 <= k < |r.value.pieces| ==> r.value.pieces[k].name != basename)
            && (forall k, l :: 0 <= k < l < |r.value.pieces| ==> r.value.pieces[k].name != r.value.pieces[l].name)
            && (forall k :: 0 <= k < |r.value.pieces| ==> 0 < |Locs(r.value.pieces[k].doc)| <= m)
            && (forall k :: 0 <= k < |r.value.pieces| - 1 ==> |Locs(r.value.pieces[k].doc)| == m)
            && Flatten(PieceLocs(r.value.pieces)) == SortedKeys(inv.Keys)
  {
    WriteSitemapPieces(cfg, inv, basename, mtime);
    var w := WriteSitemap(cfg, inv, basename, true, mtime);
    assert w.Ok? && w.value.Multi?;
    var ps := w.value.pieces;
    var keys := SortedKeys(inv.Keys);
    assert |keys| == |inv|;
    PiecesOfSplit(ps, keys, cfg.maxEntries, basename);
  }
}
