/** `InventoryBuilder`: an inventory made from a scan of a directory tree,
    or read from a sitemap. The directory tree is given as a value; the
    scan visits it in the top-down order of `os.walk`, which lists the files
    of a directory before descending into its subdirectories. */
module InventoryBuilder {
  import opened Wrappers
  import opened Resources
  import opened Xml
  import opened Sitemap
  import opened Patterns
  import opened Ordering

  /** The builder's settings. */
  datatype Builder = Builder(
    doMd5: bool,
    doSize: bool,
    excludeFiles: seq<Pattern>,
    excludeDirs: seq<string>,
    includeSymlinks: bool)

  /** A new builder: the default exclusions, symbolic links left out. */
  function NewBuilder(doMd5: bool, doSize: bool): Builder
  {
    Builder(doMd5, doSize, [DefaultExclude], ["CVS", ".git"], false)
  }

  /** `InventoryBuilder()` with no arguments: sizes recorded, no digests. */
  function DefaultBuilder(): (b: Builder)
    ensures !b.doMd5 && b.doSize && !b.includeSymlinks
    ensures b.excludeDirs == ["CVS", ".git"]
    ensures b == NewBuilder(b.doMd5, b.doSize)
  {
    NewBuilder(false, true)
  }

  /** `exclude_file`. */
  predicate ExcludesFile(b: Builder, name: string)
  {
    ExcludeFile(b.excludeFiles, name)
  }

  /** A builder made with the defaults keeps sitemap files out of the
      inventory and ordinary files in, whatever its digest and size flags. */
  lemma NewBuilderExclusions(doMd5: bool, doSize: bool)
    ensures ExcludesFile(NewBuilder(doMd5, doSize), "sitemap.xml")
    ensures ExcludesFile(NewBuilder(doMd5, doSize), "sitemap00001.xml")
    ensures !ExcludesFile(NewBuilder(doMd5, doSize), "file_a")
    ensures !ExcludesFile(NewBuilder(doMd5, doSize), "file_b")
    ensures !ExcludesFile(NewBuilder(doMd5, doSize), "mysitemap.xml")
  {
    DefaultExcludesSitemaps();
    DefaultKeepsOthers();
    var ps := NewBuilder(doMd5, doSize).excludeFiles;
    ExcludeFileSpec(ps, "sitemap.xml");
    ExcludeFileSpec(ps, "sitemap00001.xml");
    ExcludeFileSpec(ps, "file_a");
    ExcludeFileSpec(ps, "file_b");
    ExcludeFileSpec(ps, "mysitemap.xml");
  }

  /** An entry of a directory listing. `os.walk` puts every entry that is a
      directory, or a link to one, among the subdirectories and everything
      else among the files; `isFile` is what `os.path.isfile` says (false for
      a dangling link or a special file). */
  datatype Node =
    | File(name: string, isFile: bool, isLink: bool, size: nat, mtime: Timestamp, content: string)
    | Dir(name: string, isLink: bool, children: seq<Node>)

  /** A file met by the walk, with its path relative to the scanned root. */
  datatype Listed = Listed(path: seq<string>, file: Node)

  /** The walk goes into a subdirectory unless it is pruned by name or is a
      symbolic link (links are not followed). */
  predicate Descends(b: Builder, n: Node)
  {
    n.Dir? && n.name !in b.excludeDirs && !n.isLink
  }

  /** The files of one directory listing, in listing order. */
  function FilesOf(cs: seq<Node>, rel: seq<string>): seq<Listed>
  {
    if |cs| == 0 then []
    else (if cs[0].File? then [Listed(rel + [cs[0].name], cs[0])] else []) + FilesOf(cs[1..], rel)
  }

  /** Everything the walk meets under the directory with listing `cs`, at
      `rel` below the root: first its files, then each subdirectory it goes
      into, in listing order. */
  function Walk(b: Builder, cs: seq<Node>, rel: seq<string>): seq<Listed>
    decreases cs, 1
  {
    FilesOf(cs, rel) + Subdirs(b, cs, rel)
  }

  function Subdirs(b: Builder, cs: seq<Node>, rel: seq<string>): seq<Listed>
    decreases cs, 0
  {
    if |cs| == 0 then []
    else (if Descends(b, cs[0]) then Walk(b, cs[0].children, rel + [cs[0].name]) else [])
         + Subdirs(b, cs[1..], rel)
  }

  /** Independent of the walk order: the file `f` is at `path` below the
      directory with listing `cs`, reached through directories the walk
      goes into. */
  predicate Reaches(b: Builder, cs: seq<Node>, path: seq<string>, f: Node)
    decreases cs
  {
    if |path| == 1 then
      exists i :: 0 <= i < |cs| && cs[i] == f && f.File? && f.name == path[0]
    else
      |path| > 1 &&
      exists i :: 0 <= i < |cs| && Descends(b, cs[i]) && cs[i].name == path[0] &&
                  Reaches(b, cs[i].children, path[1..], f)
  }

  /** A file found by the walk is made a resource when its name is not
      excluded and it is a regular file, not a link unless links are
      included. */
  predicate Admitted(b: Builder, f: Node)
  {
    f.File? && !ExcludesFile(b, f.name) && f.isFile && (b.includeSymlinks || !f.isLink)
  }

  /** The relative path with `/` between the names, whatever the separator
      of the operating system. */
  function JoinPath(path: seq<string>): string
  {
    if |path| == 0 then ""
    else if |path| == 1 then path[0]
    else path[0] + "/" + JoinPath(path[1..])
  }

  function FileUri(prefix: string, path: seq<string>): string
  {
    prefix + "/" + JoinPath(path)
  }

  /** The resource for an admitted file: its URI and time always, its size
      and digest as the builder asks. `digest` stands for the MD5 of the
      file's content. */
  function ResourceFor(b: Builder, prefix: string, path: seq<string>, f: Node, digest: string -> string): Resource
    requires f.File?
  {
    Resource(FileUri(prefix, path), Some(f.mtime),
             if b.doSize then Some(f.size as int) else None,
             if b.doMd5 then Some(digest(f.content)) else None)
  }

  /** The resources made from the files the walk met, in walk order. */
  function Made(b: Builder, prefix: string, ls: seq<Listed>, digest: string -> string): seq<Resource>
  {
    if |ls| == 0 then []
    else if Admitted(b, ls[0].file) then
      [ResourceFor(b, prefix, ls[0].path, ls[0].file, digest)] + Made(b, prefix, ls[1..], digest)
    else Made(b, prefix, ls[1..], digest)
  }

  /** `from_disk`: scan the directory whose listing is `root` and add a
      resource per admitted file to `target`, or to a new inventory. */
  function FromDisk(b: Builder, root: seq<Node>, prefix: string, target: Option<Inventory>,
                    digest: string -> string): Inventory
  {
    AddAll(target.GetOr(map[]), Made(b, prefix, Walk(b, root, []), digest))
  }

  // ---------------------------------------------------------------------
  // The walk against the reachability relation

  lemma {:induction false} FilesOfSound(cs: seq<Node>, rel: seq<string>, l: Listed)
    requires l in FilesOf(cs, rel)
    ensures exists i :: 0 <= i < |cs| && cs[i] == l.file && l.file.File? && l.path == rel + [cs[i].name]
  {
    if !(cs[0].File? && l == Listed(rel + [cs[0].name], cs[0])) {
      FilesOfSound(cs[1..], rel, l);
      var i :| 0 <= i < |cs[1..]| && cs[1..][i] == l.file && l.file.File? && l.path == rel + [cs[1..][i].name];
      assert cs[i + 1] == cs[1..][i];
    }
  }

  lemma {:induction false} FilesOfComplete(cs: seq<Node>, rel: seq<string>, i: nat)
    requires i < |cs| && cs[i].File?
    ensures Listed(rel + [cs[i].name], cs[i]) in FilesOf(cs, rel)
  {
    if i > 0 {
      FilesOfComplete(cs[1..], rel, i - 1);
      assert cs[1..][i - 1] == cs[i];
    }
  }

  lemma {:induction false} SubdirsSound(b: Builder, cs: seq<Node>, rel: seq<string>, l: Listed)
    requires l in Subdirs(b, cs, rel)
    ensures exists i :: 0 <= i < |cs| && Descends(b, cs[i]) && l in Walk(b, cs[i].children, rel + [cs[i].name])
  {
    if !(Descends(b, cs[0]) && l in Walk(b, cs[0].children, rel + [cs[0].name])) {
      SubdirsSound(b, cs[1..], rel, l);
      var i :| 0 <= i < |cs[1..]| && Descends(b, cs[1..][i]) &&
               l in Walk(b, cs[1..][i].children, rel + [cs[1..][i].name]);
      assert cs[i + 1] == cs[1..][i];
    }
  }

  lemma {:induction false} SubdirsComplete(b: Builder, cs: seq<Node>, rel: seq<string>, i: nat, l: Listed)
    requires i < |cs| && Descends(b, cs[i]) && l in Walk(b, cs[i].children, rel + [cs[i].name])
    ensures l in Subdirs(b, cs, rel)
  {
    if i > 0 {
      assert cs[1..][i - 1] == cs[i];
      SubdirsComplete(b, cs[1..], rel, i - 1, l);
    }
  }

  lemma ReachesHere(b: Builder, cs: seq<Node>, i: nat)
    requires i < |cs| && cs[i].File?
    ensures Reaches(b, cs, [cs[i].name], cs[i])
  {
  }

  lemma ReachesBelow(b: Builder, cs: seq<Node>, i: nat, p: seq<string>, f: Node)
    requires i < |cs| && Descends(b, cs[i]) && |p| > 1 && cs[i].name == p[0]
    requires Reaches(b, cs[i].children, p[1..], f)
    ensures Reaches(b, cs, p, f)
  {
  }

  /** Whatever the walk meets lies below where it started and is reachable
      from there. */
  lemma {:induction false} WalkSound(b: Builder, cs: seq<Node>, rel: seq<string>, l: Listed)
    requires l in Walk(b, cs, rel)
    ensures |rel| < |l.path| && l.path[..|rel|] == rel && Reaches(b, cs, l.path[|rel|..], l.file)
    decreases cs, 1
  {
    if l in FilesOf(cs, rel) {
      FilesOfSound(cs, rel, l);
      var i :| 0 <= i < |cs| && cs[i] == l.file && l.file.File? && l.path == rel + [cs[i].name];
      assert l.path[|rel|..] == [cs[i].name];
      ReachesHere(b, cs, i);
    } else {
      SubdirsSoundReaches(b, cs, rel, l);
    }
  }

  lemma {:induction false} SubdirsSoundReaches(b: Builder, cs: seq<Node>, rel: seq<string>, l: Listed)
    requires l in Subdirs(b, cs, rel)
    ensures |rel| < |l.path| && l.path[..|rel|] == rel && Reaches(b, cs, l.path[|rel|..], l.file)
    decreases cs, 0
  {
    SubdirsSound(b, cs, rel, l);
    var i :| 0 <= i < |cs| && Descends(b, cs[i]) && l in Walk(b, cs[i].children, rel + [cs[i].name]);
    WalkSound(b, cs[i].children, rel + [cs[i].name], l);
    DeeperPath(l.path, rel, cs[i].name);
    ReachesBelow(b, cs, i, l.path[|rel|..], l.file);
  }

  lemma DeeperPath(path: seq<string>, rel: seq<string>, name: string)
    requires |rel| + 1 < |path| && path[..|rel| + 1] == rel + [name]
    ensures |rel| < |path| && path[..|rel|] == rel
    ensures |path[|rel|..]| > 1 && path[|rel|..][0] == name
    ensures path[|rel|..][1..] == path[|rel| + 1..]
  {
    assert path[..|rel|] == path[..|rel| + 1][..|rel|];
    assert path[|rel|] == path[..|rel| + 1][|rel|];
  }

  /** Every reachable file is met by the walk, at its path. */
  lemma {:induction false} WalkComplete(b: Builder, cs: seq<Node>, rel: seq<string>, p: seq<string>, f: Node)
    requires Reaches(b, cs, p, f)
    ensures Listed(rel + p, f) in Walk(b, cs, rel)
    decreases cs
  {
    if |p| == 1 {
      var i :| 0 <= i < |cs| && cs[i] == f && f.File? && f.name == p[0];
      FilesOfComplete(cs, rel, i);
      assert p == [cs[i].name];
    } else {
      var i :| 0 <= i < |cs| && Descends(b, cs[i]) && cs[i].name == p[0] && Reaches(b, cs[i].children, p[1..], f);
      WalkComplete(b, cs[i].children, rel + [p[0]], p[1..], f);
      assert rel + p == rel + [p[0]] + p[1..];
      SubdirsComplete(b, cs, rel, i, Listed(rel + p, f));
    }
  }

  /** A pruned directory, and everything beneath it, is never reached: no
      name on the way to a reachable file is one of the excluded ones. */
  lemma {:induction false} ReachesAvoidsExcluded(b: Builder, cs: seq<Node>, p: seq<string>, f: Node)
    requires Reaches(b, cs, p, f)
    ensures forall j :: 0 <= j < |p| - 1 ==> p[j] !in b.excludeDirs
    decreases cs
  {
    if |p| > 1 {
      var i :| 0 <= i < |cs| && Descends(b, cs[i]) && cs[i].name == p[0] && Reaches(b, cs[i].children, p[1..], f);
      ReachesAvoidsExcluded(b, cs[i].children, p[1..], f);
      forall j | 1 <= j < |p| - 1 ensures p[j] !in b.excludeDirs {
        assert p[j] == p[1..][j - 1];
      }
    }
  }

  // ---------------------------------------------------------------------
  // From files met to resources

  lemma {:induction false} MadeSpec(b: Builder, prefix: string, ls: seq<Listed>, digest: string -> string, r: Resource)
    ensures r in Made(b, prefix, ls, digest) <==>
            exists l :: l in ls && Admitted(b, l.file) && r == ResourceFor(b, prefix, l.path, l.file, digest)
  {
    if |ls| > 0 {
      MadeSpec(b, prefix, ls[1..], digest, r);
      if exists l :: l in ls && Admitted(b, l.file) && r == ResourceFor(b, prefix, l.path, l.file, digest) {
        var l :| l in ls && Admitted(b, l.file) && r == ResourceFor(b, prefix, l.path, l.file, digest);
        if l != ls[0] {
          assert l in ls[1..];
        }
      }
    }
  }

  /** The URIs `from_disk` adds are exactly those of the reachable admitted
      files. */
  lemma MadeUris(b: Builder, root: seq<Node>, prefix: string, digest: string -> string, k: string)
    ensures k in Uris(Made(b, prefix, Walk(b, root, []), digest)) <==>
            exists p, f :: Reaches(b, root, p, f) && Admitted(b, f) && FileUri(prefix, p) == k
  {
    if k in Uris(Made(b, prefix, Walk(b, root, []), digest)) {
      MadeUrisSound(b, root, prefix, digest, k);
    }
    if exists p, f :: Reaches(b, root, p, f) && Admitted(b, f) && FileUri(prefix, p) == k {
      var p, f :| Reaches(b, root, p, f) && Admitted(b, f) && FileUri(prefix, p) == k;
      MadeUrisComplete(b, root, prefix, digest, p, f);
    }
  }

  lemma MadeUrisSound(b: Builder, root: seq<Node>, prefix: string, digest: string -> string, k: string)
    requires k in Uris(Made(b, prefix, Walk(b, root, []), digest))
    ensures exists p, f :: Reaches(b, root, p, f) && Admitted(b, f) && FileUri(prefix, p) == k
  {
    var ls := Walk(b, root, []);
    var rs := Made(b, prefix, ls, digest);
    var i :| 0 <= i < |rs| && rs[i].uri == k;
    MadeSpec(b, prefix, ls, digest, rs[i]);
    var l :| l in ls && Admitted(b, l.file) && rs[i] == ResourceFor(b, prefix, l.path, l.file, digest);
    WalkSound(b, root, [], l);
    assert l.path[0..] == l.path;
    assert Reaches(b, root, l.path, l.file) && FileUri(prefix, l.path) == k;
  }

  lemma MadeUrisComplete(b: Builder, root: seq<Node>, prefix: string, digest: string -> string, p: seq<string>, f: Node)
    requires Reaches(b, root, p, f) && Admitted(b, f)
    ensures FileUri(prefix, p) in Uris(Made(b, prefix, Walk(b, root, []), digest))
  {
    var ls := Walk(b, root, []);
    var rs := Made(b, prefix, ls, digest);
    WalkComplete(b, root, [], p, f);
    assert [] + p == p;
    var r := ResourceFor(b, prefix, p, f, digest);
    MadeSpec(b, prefix, ls, digest, r);
    var i :| 0 <= i < |rs| && rs[i] == r;
    assert rs[i].uri == FileUri(prefix, p);
  }

  /** `from_disk` adds to the supplied inventory: its keys are the supplied
      keys and the URIs of the reachable admitted files. */
  lemma FromDiskKeys(b: Builder, root: seq<Node>, prefix: string, target: Option<Inventory>,
                     digest: string -> string, k: string)
    ensures k in FromDisk(b, root, prefix, target, digest) <==>
            k in target.GetOr(map[]) ||
            exists p, f :: Reaches(b, root, p, f) && Admitted(b, f) && FileUri(prefix, p) == k
  {
    AddAllSpec(target.GetOr(map[]), Made(b, prefix, Walk(b, root, []), digest));
    MadeUris(b, root, prefix, digest, k);
  }

  /** Each value `from_disk` leaves is the supplied one when no scanned file
      has that URI, and otherwise the resource made for a reachable admitted
      file at that URI: its size only when sizes are asked for, its digest
      only when digests are. */
  lemma FromDiskValues(b: Builder, root: seq<Node>, prefix: string, target: Option<Inventory>,
                       digest: string -> string, k: string)
    requires k in FromDisk(b, root, prefix, target, digest)
    ensures var out := FromDisk(b, root, prefix, target, digest);
            || (k in target.GetOr(map[]) && out[k] == target.GetOr(map[])[k])
            || exists p, f :: Reaches(b, root, p, f) && Admitted(b, f) && FileUri(prefix, p) == k &&
                              out[k] == ResourceFor(b, prefix, p, f, digest)
    ensures var out := FromDisk(b, root, prefix, target, digest);
            k !in target.GetOr(map[]) ==>
              out[k].uri == k && out[k].lastmod.Some? &&
              (out[k].size.Some? <==> b.doSize) && (out[k].md5.Some? <==> b.doMd5)
  {
    var ls := Walk(b, root, []);
    var rs := Made(b, prefix, ls, digest);
    var out := FromDisk(b, root, prefix, target, digest);
    AddAllValues(target.GetOr(map[]), rs);
    if k in Uris(rs) {
      var i :| 0 <= i < |rs| && rs[i].uri == k && out[k] == rs[i];
      MadeSpec(b, prefix, ls, digest, rs[i]);
      var l :| l in ls && Admitted(b, l.file) && rs[i] == ResourceFor(b, prefix, l.path, l.file, digest);
      WalkSound(b, root, [], l);
      assert l.path[0..] == l.path;
      assert Reaches(b, root, l.path, l.file);
    }
  }

  /** `get`: read the sitemap `doc` into `target`, or into a new inventory;
      an index or a malformed document is an error, as in the parser. */
  function Get(doc: Element, target: Option<Inventory>): (r: Result<Inventory, ParseError>)
    ensures r.Ok? <==> ParseXml(doc, target).Ok?
    ensures r.Err? ==> r.error == ParseXml(doc, target).error
    ensures r.Ok? ==>
              && doc.tag == UrlsetTag
              && AllDecode(FindAll(doc, UrlTag), ResourceFromElement)
              && r.value == AddAll(target.GetOr(map[]), Decoded(FindAll(doc, UrlTag), ResourceFromElement))
  {
    match ParseXml(doc, target)
    case Ok(p) => Ok(p.inventory)
    case Err(e) => Err(e)
  }

  lemma WalkTwoFiles(b: Builder, fa: Node, fb: Node)
    requires fa.File? && fb.File?
    ensures Walk(b, [fa, fb], []) == [Listed([fa.name], fa), Listed([fb.name], fb)]
  {
    var root := [fa, fb];
    assert root[1..] == [fb] && [fb][1..] == [];
    assert [] + [fa.name] == [fa.name] && [] + [fb.name] == [fb.name];
    assert FilesOf([fb], []) == [Listed([fb.name], fb)];
    assert Subdirs(b, [fb], []) == [];
  }

  lemma MadeTwo(b: Builder, prefix: string, la: Listed, lb: Listed, digest: string -> string)
    requires Admitted(b, la.file) && Admitted(b, lb.file)
    ensures Made(b, prefix, [la, lb], digest) ==
            [ResourceFor(b, prefix, la.path, la.file, digest), ResourceFor(b, prefix, lb.path, lb.file, digest)]
  {
    assert [la, lb][1..] == [lb] && [lb][1..] == [];
    assert Made(b, prefix, [lb], digest) == [ResourceFor(b, prefix, lb.path, lb.file, digest)] + Made(b, prefix, [], digest);
  }

  lemma AddTwo(ra: Resource, rb: Resource)
    requires ra.uri != rb.uri
    ensures AddAll(map[], [ra, rb]) == map[ra.uri := ra, rb.uri := rb]
  {
    assert [ra, rb][1..] == [rb] && [rb][1..] == [];
    assert AddAll(map[], [ra, rb]) == AddAll(map[ra.uri := ra], [rb]);
    assert AddAll(map[ra.uri := ra], [rb]) == AddAll(map[ra.uri := ra, rb.uri := rb], []);
  }

  /** A directory holding `file_a` (20 bytes) and `file_b` (45 bytes),
      scanned under `http://example.org/t` with the default builder, gives
      two entries with those sizes and no digests. */
  lemma ScanTwoFiles(ca: string, cb: string, digest: string -> string)
    ensures var ta, tb := "2012-03-14T17:46:04", "2012-03-14T17:46:25";
            var prefix := "http://example.org/t";
            var ua, ub := prefix + "/file_a", prefix + "/file_b";
            var root := [File("file_a", true, false, 20, ta, ca), File("file_b", true, false, 45, tb, cb)];
            FromDisk(DefaultBuilder(), root, prefix, None, digest) ==
              map[ua := Resource(ua, Some(ta), Some(20), None), ub := Resource(ub, Some(tb), Some(45), None)]
  {
    var ta, tb := "2012-03-14T17:46:04", "2012-03-14T17:46:25";
    var fa, fb := File("file_a", true, false, 20, ta, ca), File("file_b", true, false, 45, tb, cb);
    var b := DefaultBuilder();
    var prefix := "http://example.org/t";
    NewBuilderExclusions(b.doMd5, b.doSize);
    SlashNames();
    DefaultResourceTop(prefix, "file_a", fa, digest);
    DefaultResourceTop(prefix, "file_b", fb, digest);
    var ua, ub := prefix + "/file_a", prefix + "/file_b";
    assert ua[|ua| - 1] != ub[|ub| - 1];
    FromDiskTwoFiles(b, prefix, fa, fb, digest);
  }

  lemma SlashNames()
    ensures "/" + "file_a" == "/file_a" && "/" + "file_b" == "/file_b"
  {
  }

  /** The default builder's resource for a file at the top of the tree: the
      prefix, a slash and the name, the file's time and size, no digest. */
  lemma DefaultResourceTop(prefix: string, name: string, f: Node, digest: string -> string)
    requires f.File?
    ensures ResourceFor(DefaultBuilder(), prefix, [name], f, digest) ==
            Resource(prefix + ("/" + name), Some(f.mtime), Some(f.size as int), None)
  {
  }

  /** Two admitted files at the top of the tree, with different URIs, give
      one entry each. */
  lemma FromDiskTwoFiles(b: Builder, prefix: string, fa: Node, fb: Node, digest: string -> string)
    requires Admitted(b, fa) && Admitted(b, fb)
    requires FileUri(prefix, [fa.name]) != FileUri(prefix, [fb.name])
    ensures var ra := ResourceFor(b, prefix, [fa.name], fa, digest);
            var rb := ResourceFor(b, prefix, [fb.name], fb, digest);
            FromDisk(b, [fa, fb], prefix, None, digest) == map[ra.uri := ra, rb.uri := rb]
  {
    WalkTwoFiles(b, fa, fb);
    MadeTwo(b, prefix, Listed([fa.name], fa), Listed([fb.name], fb), digest);
    AddTwo(ResourceFor(b, prefix, [fa.name], fa, digest), ResourceFor(b, prefix, [fb.name], fb, digest));
  }

  /** Written out, the inventory of that scan lists `file_a` before
      `file_b`, under any URL prefix. */
  lemma ScanTwoFilesOrder(prefix: string, ta: Timestamp, tb: Timestamp)
    ensures var ua, ub := prefix + "/file_a", prefix + "/file_b";
            var inv := map[ua := Resource(ua, Some(ta), Some(20), None), ub := Resource(ub, Some(tb), Some(45), None)];
            Locs(InventoryAsXml(inv, None).value) == [ua, ub]
  {
    var pre := prefix + "/file_";
    var ua, ub := prefix + "/file_a", prefix + "/file_b";
    assert Less("a", "b");
    LessCommonPrefix(pre, "a", "b");
    assert pre + "a" == ua && pre + "b" == ub;
    var inv := map[ua := Resource(ua, Some(ta), Some(20), None), ub := Resource(ub, Some(tb), Some(45), None)];
    TwoEntryListing(inv, ua, ub);
  }

  lemma TwoEntryListing(inv: Inventory, a: string, b: string)
    requires WellKeyed(inv) && inv.Keys == {a, b} && Less(a, b)
    ensures Locs(InventoryAsXml(inv, None).value) == [a, b]
  {
    assert StrictlySorted([a, b]);
    forall k
      ensures k in [a, b] <==> k in inv
    {
      assert k in [a, b] <==> k == a || k == b;
    }
    InventoryAsXmlListing(inv, [a, b]);
  }
}
