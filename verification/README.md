# ResourceSync simulator core, modelled in Dafny

This project models three parts of the ResourceSync simulator (Python 2).

- **The sitemap codec** (`resync/sitemap.py`). It covers:
  - the `<url>` element written for a resource and the resource read back from one;
  - the `<urlset>` written for an inventory;
  - parsing with dispatch on the root element;
  - the plan `write_sitemap` follows: a single sitemap, an error, or numbered pieces plus a sitemap index;
  - the layout of the sitemap index;
  - `map_file_to_uri`.
- **The inventory builder** (`resync/inventory_builder.py`). It covers:
  - the default settings;
  - file-name exclusion with the `re.match` patterns;
  - `from_disk` over a directory tree given as a value, walked top-down as `os.walk` does;
  - `get`, which reads a sitemap into a supplied or a new inventory.
- **The simulated source** (`resync/source.py`). This is a repository mapping basenames to a timestamp and a size, with a counter that hands out fresh basenames. It covers:
  - `create_resource`, `update_resource` and `delete_resource`, each returning the new state, the change events sent to observers, and the exception that stopped it, if any;
  - `resource`, `resource_count` and `generate_dummy_payload`;
  - the counter-driven `bootstrap`.

XML is an element tree with resolved names `{namespace}local`. The encoder in the source writes the prefixed names `rs:size` and `rs:md5` under a root that declares `xmlns:rs`. The model uses the resolved names (`{http://resourcesync.org/change/0.1}size`) that a namespace-aware reader sees.

The Inventory and Resource classes are not part of this model. An inventory is a map from URI to resource, and `add` inserts or overwrites by URI. A resource is a URI with three optional properties: lastmod, size and md5.

The clock, the random size draw, file modification times and MD5 digests are parameters of the operations that use them.

Modules, one per file:

- `Wrappers`: Option and Result.
- `Decimal`: Python's `str()` of an integer, `int()` of a string, and `%05d`.
- `Arith`: small facts about division.
- `Ordering`: Python's string order and `sorted()`.
- `Resources`: resources, inventories, `add`.
- `Xml`: element trees, `findtext`, `findall`.
- `Sitemap`: the codec and the parser.
- `SitemapWriter`: the write plan, the index, `map_file_to_uri`.
- `Patterns`: the regular-expression fragment used by the exclusions.
- `InventoryBuilder`: the builder.
- `Sources`: the simulated source.

## Model

| member | source | states |
|---|---|---|
| Decimal.NatToStringValue | resync/sitemap.py:59-62 | The decimal text `str(n)` written for a size reads back, digit by digit, as `n`. |
| Decimal.NatToStringInjective | resync/source.py:83-85 | Distinct counter values give distinct basenames `str(max_res_id)`. |
| Decimal.Pad5Value | resync/sitemap.py:184 | The `%05d` text of a piece number reads back as that number, with at least five digits. |
| Decimal.Pad5Injective | resync/sitemap.py:184 | Distinct piece numbers give distinct `%05d` texts. |
| Decimal.Strip | resync/sitemap.py:97-99 | `int()`'s white-space stripping returns a slice of the input with only white space outside it and no white space at either of its ends. |
| Decimal.StripPast | resync/sitemap.py:97-99 | Text that has white space only around a middle strips to exactly that middle. |
| Decimal.ParseInt | resync/sitemap.py:97-99 | `int(size)` accepts exactly the integer literals (white space, an optional sign, white space, one or more digits, white space) and reads each as its value, negated after a minus; accepted text holds only white space, signs and digits, and at least one digit. |
| Decimal.ParseLiteral | resync/sitemap.py:97-99 | Every integer literal, white space after its sign included, reads as its value. |
| Decimal.LiteralOfParse | resync/sitemap.py:97-99 | Conversely, any text that reads as a number is an integer literal of that value. |
| Decimal.ParseIntDigits | resync/sitemap.py:97-99 | `int()` of a plain digit string is its decimal value. |
| Decimal.ParseIntSpacedSign | resync/sitemap.py:97-99 | `int(" - 12\n") == -12` and `int("+ 5") == 5`: white space is allowed between the sign and the digits. |
| Decimal.ParseIntForeign | resync/sitemap.py:97-99 | Text holding any character other than white space, a sign or a digit raises ValueError. |
| Decimal.ParseIntNoDigit | resync/sitemap.py:97-99 | Text without a digit, the empty text included, raises ValueError. |
| Decimal.ParseIntDoubleSign | resync/sitemap.py:97-99 | A sign directly after a sign, as in `--1`, raises ValueError. |
| Decimal.ParseIntToString | resync/sitemap.py:59-99 | `int(str(i)) == i` for every integer, negative ones included, so a size survives the codec. |
| Ordering.LessTransitive | resync/sitemap.py:118 | Python's string order is transitive. |
| Ordering.LessTotal | resync/sitemap.py:118 | Any two distinct strings are ordered one way or the other. |
| Ordering.LessCommonPrefix | resync/test/test_inventory_builder.py:17 | A shared prefix does not change the order of two strings, so `.../file_a` sorts before `.../file_b` under any URL prefix. |
| Ordering.SortedDistinct | resync/sitemap.py:118 | A strictly ascending listing has no repeats. |
| Ordering.Least | resync/sitemap.py:241 | The chosen key of a non-empty set is below every other key of the set. |
| Ordering.SortedKeys | resync/sitemap.py:118-182 | `sorted(keys)` is strictly ascending and lists exactly the set, each key once. |
| Ordering.SortedListingUnique | resync/sitemap.py:118-182 | A set has only one strictly ascending listing, so any ordered traversal equals `sorted()`. |
| Ordering.SortedKeysOfTwo | resync/sitemap.py:118 | Two keys come out smaller first. |
| Resources.Add | resync/sitemap.py:153 | `add` files the resource under its URI, replaces what was there, and leaves every other key as it was. |
| Resources.AddAllSpec | resync/sitemap.py:152-153 | Repeated `add` gains exactly the added URIs, keeps untouched keys' values, and leaves each URI with the last resource that carries it. |
| Resources.AddAllWellKeyed | resync/inventory_builder.py:105 | Adding keeps every entry filed under its own URI. |
| Resources.AddAllDistinct | resync/sitemap.py:152-153 | When no two added resources share a URI, each one is in the result under its URI. |
| Resources.AddAllValues | resync/inventory_builder.py:105 | Each key afterwards holds its old value when nothing added carries it, and otherwise one of the added resources with that URI. |
| Resources.LastWithUriExists | resync/sitemap.py:152-153 | Every added URI has a last resource carrying it, which is the one that stays. |
| Xml.FirstTextSpec | resync/sitemap.py:88 | `findtext` gives None exactly when no child has the name, and otherwise the text of the earliest child that has it. |
| Xml.FirstTextAppend | resync/sitemap.py:88 | The first match in a concatenation comes from the first part when that part has one. |
| Xml.Select | resync/sitemap.py:152 | `findall` keeps exactly the children with a wanted name, and no more of them than there are children. |
| Xml.SelectOne | resync/sitemap.py:152 | A single child is kept exactly when its name is wanted. |
| Xml.SelectAppend | resync/sitemap.py:152 | Selection keeps document order: selecting from two runs of children is selecting from each, the first run's matches first. |
| Xml.FirstTextSelect | resync/sitemap.py:83-86 | Dropping children with other names never changes what `findtext` finds. |
| Xml.SelectAll | resync/sitemap.py:83-86 | Selecting from children that all have wanted names keeps them all. |
| Sitemap.InFieldOrderAppend | resync/sitemap.py:54-66 | Appending the next property after the earlier ones keeps the fixed order. |
| Sitemap.ResourceElementShape | resync/sitemap.py:44-67 | The `<url>` element starts with `<loc>` holding the URI. It then holds only property elements, each at most once, in the order lastmod, size, md5. Each is present exactly when the resource has that property and holds its text. |
| Sitemap.ResourceElementOrder | resync/sitemap.py:51-66 | The loc-first, fixed-order, one-each shape of the `<url>` children, with no grandchildren. |
| Sitemap.ResourceElementTexts | resync/sitemap.py:53-65 | `findtext` on the written element gives the URI, the lastmod, `str(size)` and the md5, each None when absent. |
| Sitemap.FindTextOfParts | resync/sitemap.py:51-66 | `findtext` over the concatenated parts is the first part's match, else the next part's, and so on. |
| Sitemap.DecodeOutcome | resync/sitemap.py:80-103 | A missing `<loc>` is an error, and so is a size text `int()` refuses. Otherwise decoding succeeds, and each property is the text of the first matching child, with the size as `int()` reads it. |
| Sitemap.DecodeIgnoresOtherElements | resync/sitemap.py:83-102 | Two `<url>` elements with the same sitemap loc/lastmod and ResourceSync size/md5 children decode alike, whatever else they contain. |
| Sitemap.ResourceRoundTrip | resync/sitemap.py:44-103 | Decoding the element written for a resource succeeds and gives back its URI, size and md5. |
| Sitemap.FirstMissing | resync/sitemap.py:119-120 | Finds the first entry the inventory lacks, where the lookup raises KeyError; it is None exactly when every entry is present. |
| Sitemap.InventoryAsXml | resync/sitemap.py:107-123 | Without entries it always succeeds. With entries it succeeds iff all of them are in the inventory, and otherwise fails on a missing key. It writes a `<urlset>` with one `<url>` per entry. |
| Sitemap.LocsOfUrlset | resync/sitemap.py:119-123 | The `<loc>` texts of the written `<urlset>` are the listed keys, in order. |
| Sitemap.InventoryAsXmlSorted | resync/sitemap.py:117-123 | With entries omitted, every key appears exactly once, in ascending order. |
| Sitemap.InventoryAsXmlListing | resync/sitemap.py:117-123 | With entries omitted, the document lists the keys in the one ascending listing of the inventory's keys. |
| Sitemap.InventoryAsXmlEntries | resync/sitemap.py:119-123 | With entries given, exactly those entries appear, in that order. |
| Sitemap.Decoded | resync/sitemap.py:152-153 | When every `<url>` decodes, the decoded resources correspond one to one with the entries. |
| Sitemap.DecodedCons | resync/sitemap.py:152-153 | Decoding a list is decoding its head and then the rest. |
| Sitemap.FailureIndex | resync/sitemap.py:152-153 | Finds the first `<url>` that does not decode; every entry before it decodes. |
| Sitemap.AllDecodeFailureIndex | resync/sitemap.py:152-153 | Every entry decodes iff there is no failing position. |
| Sitemap.AddEntriesAll | resync/sitemap.py:151-155 | When every `<url>` decodes, all are added in order and `resources_added` counts them. |
| Sitemap.AddEntriesFails | resync/sitemap.py:151-154 | When entry n is the first that fails, the parse fails with its error, and the n entries before it are already added and counted (the parse is not atomic). |
| Sitemap.ParseXml | resync/sitemap.py:132-159 | A `<sitemapindex>` root raises the index error without reading entries, and any other non-urlset root raises ValueError. A `<urlset>` succeeds iff every `<url>` decodes: all are added to the target and counted. Otherwise it fails at the first `<url>` that does not decode, with that entry's error, the target holding the entries before it, and their count (the parse is not atomic). |
| Sitemap.DecodedInventory | resync/sitemap.py:117-153 | The entries written for an inventory all decode, in key order, to resources with the same URI, size and md5. |
| Sitemap.ReadBack | resync/sitemap.py:146-155 | Adding resources that list an inventory's keys once each into an empty inventory restores every key with the same URI, size and md5. |
| Sitemap.InventoryRoundTrip | resync/sitemap.py:107-159 | Parsing the document written for an inventory, into a fresh inventory, gives back the same keys, each with the same URI, size and md5, and counts every entry. |
| SitemapWriter.SitemapPrefix | resync/sitemap.py:177-180 | The prefix is the base name minus a trailing ".xml", or the base name unchanged without one. |
| SitemapWriter.ChunkNamesDistinct | resync/sitemap.py:184 | Distinct piece numbers give distinct file names, so no piece overwrites another. |
| SitemapWriter.ChunkNameNotBasename | resync/sitemap.py:177-191 | No piece is named like the base name, which the index is written to. |
| SitemapWriter.ChunkSlices | resync/sitemap.py:183-186 | Piece j is `keys[j*m : (j+1)*m]`, cut short at the end, and the pieces reach the end of the keys. |
| SitemapWriter.ChunkCount | resync/sitemap.py:183 | There are ceil(n / m) pieces. |
| SitemapWriter.ChunksConcat | resync/sitemap.py:182-186 | Read in order, the pieces give back exactly the sorted keys. |
| SitemapWriter.ChunkSizes | resync/sitemap.py:183-186 | Every piece holds between one and m keys, and all but the last hold exactly m. |
| SitemapWriter.ChunkMembers | resync/sitemap.py:186 | Every key of every piece is one of the keys being split. |
| SitemapWriter.SplitMembers | resync/sitemap.py:183-186 | The same holds for the `range()` split, which is empty for a negative step. |
| SitemapWriter.MapWithFirst | resync/sitemap.py:241-245 | The first matching key in the order tried decides the result. |
| SitemapWriter.MapWithNone | resync/sitemap.py:241-249 | With no matching key, the file name comes back unchanged. |
| SitemapWriter.MapFileToUriSpec | resync/sitemap.py:236-249 | The smallest applicable mapping key wins, and its replacement is put in front of the rest of the name. With no applicable key, the file name is returned as it is. |
| SitemapWriter.MapFileToUriDefault | resync/sitemap.py:241-249 | With the default empty mappings, every file name is its own URI. |
| SitemapWriter.SitemapIndexShape | resync/sitemap.py:201-227 | The index is a `<sitemapindex>` with one `<sitemap>` per file, holding the file's mapped URI as loc and its time as lastmod. Parsing it raises the index error. |
| SitemapWriter.WriteSitemap | resync/sitemap.py:161-199 | Within the limit, one sitemap of the whole inventory goes under the base name. Over it without multi-file, the too-many-entries error. A zero limit makes `range()` fail, and a negative one gives an index with no pieces. A multi-file write puts the index under the base name. |
| SitemapWriter.WriteSitemapDefaults | resync/sitemap.py:161-175 | `write_sitemap(inventory)` with its defaults writes one sitemap named `/tmp/sitemap.xml` when the inventory fits, and otherwise raises the too-many-entries error; the default name's piece prefix is `/tmp/sitemap`. |
| SitemapWriter.WriteSitemapPieces | resync/sitemap.py:173-192 | Over a positive limit with multi-file allowed, piece k is named with number k and lists the k-th slice of the sorted keys, and the index under the base name lists the pieces. |
| SitemapWriter.PiecesListChunks | resync/sitemap.py:184-186 | Each piece lists its own chunk and carries its own number. |
| SitemapWriter.PiecesOfSplit | resync/sitemap.py:177-189 | Pieces named and filled from a split: ceil(n / m) of them, with distinct names that are never the base name. Each holds one to m keys and all but the last exactly m, and together they list the keys in order. |
| SitemapWriter.WriteSitemapSplit | resync/sitemap.py:173-192 | The multi-file write as a whole: ceil(n / m) distinct pieces, none named like the index. Each holds one to m keys, all but the last exactly m, and together they list every key once, ascending. |
| Patterns.ExcludeFileSpec | resync/inventory_builder.py:37-44 | A name is excluded exactly when some pattern of the list matches at its start; an empty list excludes nothing. |
| Patterns.MatchPrefixAppend | resync/inventory_builder.py:42 | `re.match` is anchored only at the start: a matching name still matches with anything appended. |
| Patterns.LiteralThen | resync/inventory_builder.py:42 | A literal part of a pattern consumes exactly its own text. |
| Patterns.DigitsThen | resync/inventory_builder.py:33 | A pattern opening with `\d{m,n}` matches exactly when some count of leading digits between m and n can be taken with the rest of the pattern matching what follows. |
| Patterns.DigitsShift | resync/inventory_builder.py:33 | Before a leading digit, taking m to n digits and then the rest is taking that digit and then m - 1 to n - 1 more. |
| Patterns.AnyThenXml | resync/inventory_builder.py:33 | The unescaped `.` before "xml" takes any one character but a newline. |
| Patterns.DefaultExcludeSpec | resync/inventory_builder.py:33 | The default pattern matches exactly the names that start with "sitemap", up to five digits, any character but a newline, then "xml". |
| Patterns.DefaultExcludeSound | resync/inventory_builder.py:33 | Every name the default pattern matches has that shape. |
| Patterns.DefaultExcludeComplete | resync/inventory_builder.py:33 | Every name of that shape is matched. |
| Patterns.DefaultExcludesSitemaps | resync/inventory_builder.py:33 | "sitemap.xml", "sitemap00001.xml", "sitemap.xml.gz" and "sitemapXxml" are excluded by default. |
| Patterns.DefaultKeepsOthers | resync/inventory_builder.py:33 | "file_a", "file_b" and "mysitemap.xml" are kept, and so is a six-digit piece name. |
| InventoryBuilder.DefaultBuilder | resync/inventory_builder.py:24-35 | `InventoryBuilder()` records sizes and no digests, leaves symbolic links out and prunes `CVS` and `.git`, with the default file exclusion. |
| InventoryBuilder.NewBuilderExclusions | resync/inventory_builder.py:24-35 | Whatever the digest and size flags, a default builder excludes sitemap files and keeps ordinary ones. |
| InventoryBuilder.WalkSound | resync/inventory_builder.py:78-109 | Every file the walk meets lies below its starting point and is reachable through directories the walk enters. |
| InventoryBuilder.WalkComplete | resync/inventory_builder.py:78-109 | Every reachable file is met by the walk, at its path. |
| InventoryBuilder.ReachesAvoidsExcluded | resync/inventory_builder.py:107-109 | No directory on the way to a reachable file has an excluded name, so nothing beneath a pruned directory is scanned. |
| InventoryBuilder.MadeSpec | resync/inventory_builder.py:79-105 | A resource is made exactly for each admitted file met: not excluded by name, a regular file, not a link unless links are included. |
| InventoryBuilder.MadeUris | resync/inventory_builder.py:81-91 | The URIs made are exactly `prefix + "/" + path`, with `/` between names, for the reachable admitted files. |
| InventoryBuilder.MadeUrisSound | resync/inventory_builder.py:81-91 | Every URI made comes from a reachable admitted file. |
| InventoryBuilder.MadeUrisComplete | resync/inventory_builder.py:81-91 | Every reachable admitted file gets its URI. |
| InventoryBuilder.FromDiskKeys | resync/inventory_builder.py:75-105 | `from_disk` adds to the supplied inventory: the keys afterwards are the supplied ones plus the URIs of the reachable admitted files. |
| InventoryBuilder.FromDiskValues | resync/inventory_builder.py:96-105 | Each value is the supplied one or the resource for a reachable admitted file at that URI. A new entry has its URI and a lastmod; it has a size iff sizes are asked for, and an md5 iff digests are. |
| InventoryBuilder.Get | resync/inventory_builder.py:46-57 | `get` succeeds iff the parse does, with the same error otherwise. On success it adds every decoded entry to the supplied or new inventory. |
| InventoryBuilder.WalkTwoFiles | resync/inventory_builder.py:78-79 | A directory with two files is walked in listing order. |
| InventoryBuilder.MadeTwo | resync/inventory_builder.py:79-105 | Two admitted files give two resources, in order. |
| InventoryBuilder.AddTwo | resync/inventory_builder.py:105 | Two resources with different URIs give a two-entry inventory. |
| InventoryBuilder.ScanTwoFiles | resync/test/test_inventory_builder.py:14-17 | With the default builder, `file_a` (20 bytes) and `file_b` (45 bytes) under `http://example.org/t` give two entries with those locs and sizes, and no md5. |
| InventoryBuilder.ScanTwoFilesOrder | resync/test/test_inventory_builder.py:14-17 | Written out, that inventory lists `file_a` before `file_b`. |
| InventoryBuilder.TwoEntryListing | resync/sitemap.py:117-123 | A two-key inventory is written smaller key first. |
| Sources.Repeat | resync/source.py:60-61 | n copies of a string have n times its length. |
| Sources.RepeatAt | resync/source.py:61 | Place i of the repetition holds character `i % len` of the string. |
| Sources.DummyPayload | resync/source.py:58-64 | The payload exists iff the basename is non-empty (otherwise the division raises ZeroDivisionError), and then has length exactly `size`. |
| Sources.PayloadContent | resync/source.py:58-64 | The basename cycles through the first `size - size % len` places, and the rest are 'x'. |
| Sources.ResourceOf | resync/source.py:48-56 | A stored basename gives a resource iff it is non-empty. An unknown basename is a KeyError, raised before the ZeroDivisionError of the empty one. The URI is the fixed base plus the basename, with the stored timestamp and size, and the md5 of the dummy payload `generate_dummy_payload(basename, size)`. |
| Sources.ResourceUriInjective | resync/source.py:51 | Distinct basenames give distinct URIs. |
| Sources.CreateResource | resync/source.py:81-91 | Without a basename, the counter's text is the key and the counter goes up by one, even when the size draw then fails. A negative average payload makes the draw fail with nothing stored. Otherwise the key is stored with the time and size, every other key is unchanged, and one CREATE event carrying the new resource is sent iff observers are notified (notifying fails on an empty key). |
| Sources.DeleteResource | resync/source.py:100-107 | An unknown or empty basename fails with nothing changed. Otherwise exactly that key is removed and the others are unchanged. When notifying, one DELETE event carries the resource as it was, re-stamped with the deletion time. |
| Sources.UpdateResource | resync/source.py:93-98 | An unknown or empty basename fails with nothing changed. A failing size draw leaves the key deleted. Otherwise the key set is unchanged, the key holds the new time and size, the others are unchanged, and the only event is one UPDATE carrying the new resource. |
| Sources.IdRangeStep | resync/source.py:83-85 | Handing out one more counter value adds its text to the basenames handed out. |
| Sources.FreshKeyIsNew | resync/source.py:83-85 | Under the invariant, the counter's text is not yet stored. |
| Sources.CreateFreshValid | resync/source.py:81-91 | A create without a basename keeps the invariant, never overwrites, and grows `resource_count` by exactly one. Its event is the CREATE of the new resource iff observers are notified. |
| Sources.ValidLookup | resync/source.py:48-56 | Under the invariant, looking up a stored basename never fails. |
| Sources.DeleteValid | resync/source.py:100-107 | Deleting keeps the invariant, and deleting a stored basename shrinks `resource_count` by one. |
| Sources.UpdateValid | resync/source.py:93-98 | Updating keeps the invariant, and updating a stored basename succeeds with `resource_count` unchanged. |
| Sources.CreateThenDelete | resync/source.py:81-107 | Deleting what a fresh create just filed gives back the repository as it was. The DELETE event carries the created resource with the deletion time. |
| Sources.FiledKeys | resync/source.py:40-85 | After n silent fresh creates, the keys are the old ones plus the n counter values handed out. |
| Sources.FiledDraws | resync/source.py:40-88 | Basename `str(v)` holds the time and size drawn by the create that handed it out. |
| Sources.FiledOthers | resync/source.py:40-41 | Every other entry is as it was. |
| Sources.Bootstrap | resync/source.py:33-41 | `bootstrap` sends no events. With a negative average payload, the first create fails after advancing the counter. Otherwise the counter advances by the count, and the repository holds the n fresh basenames with their draws. |
| Sources.NewSource | resync/source.py:25-41 | A new source sends no events. When it succeeds, its basenames are exactly "0" up to n - 1 with their draws, the counter stands at n, `resource_count` is n, and the invariant holds. |
| Sources.FreshlyFiled | resync/source.py:29-41 | A bootstrap from nothing files exactly the basenames "0" up to count - 1, all below the counter. |
| Sources.IdRangeCount | resync/source.py:83-85 | The first n counter values give n distinct basenames. |

## Left out

- Byte-level XML is not modelled: serialisation and parsing with ElementTree, the XML declaration, `pretty_xml` white space, and the Python-version branches. Documents are element trees.
- The file writes and `print` statements of `write_sitemap` are not modelled. Its outcome is the list of files it would write, each with its name and document.
- The order of entries in the sitemap index is modelled as piece order. The source iterates a dictionary whose order Python 2 does not fix.
- The index lastmod text is modelled as an opaque timestamp per file, supplied by a parameter. The source computes it as `datetime.fromtimestamp(os.stat(file).st_mtime).isoformat()`, which depends on the file system and the time zone.
- SitemapWriter.MapFileToUriSpec: mapping keys are read as literal text, not as regular expressions. A key with regex metacharacters behaves differently in the source. The warning written to stderr is left out.
- Patterns: only the regex fragment the exclusions use is modelled: literal characters, `.`, and `\d{m,n}`. User-supplied patterns with other syntax are out of scope.
- The Resource class is not part of this model. Its `timestamp` and `lastmod` are one optional field, so the encoder's guard on `timestamp` (resync/sitemap.py:55-57) is taken to test the same field it writes. The round trip claims URI, size and md5 only.
- Sitemap.ResourceFromElement: a missing `<loc>` is an error value. The source raises a string, which Python 2.6 and later turn into a TypeError. Either way the entry is not added.
- Decimal.ParseInt: every magnitude is read alike. Python 2 reads a value outside the C `long` range with its long-integer parser instead, which takes no white space after the sign. Non-ASCII digits and Unicode white space are not modelled either.
- The OSError path of `from_disk` (resync/inventory_builder.py:93-95) is not modelled. It names `sys`, which that file never imports, so it cannot work as written. The tree is a value and its stat calls cannot fail.
- Directory pruning is a filter by name. `dirs.remove` drops only the first entry with that name, but names in one listing are distinct.
- Absolute paths, `os.path.relpath` and the OS separator are not modelled. The walk records each relative path as a list of names and joins them with `/`.
- MD5 digests (`compute_md5`, `compute_md5_for_file`), `time.time()` and `random.randint` are parameters: a digest function, a time value and a drawn size.
- Sources.CreateResource: the drawn size is required to lie within `randint(0, average_payload)`'s range when that range exists. The draw itself is a parameter.
- Sources.UpdateResource: the same requirement on the drawn size applies.
- Sources.Bootstrap: the draws are a function of the create's position. Timestamps are opaque, so the model claims nothing about clock monotonicity.
- Observers are not modelled as objects. The events an operation sends are returned in order.
- `get`'s URL fetch (`URLopener`) is not modelled. The fetched document is the parameter.
- `random_resources`, `random_resource` and `simulate_changes` are not modelled, because they depend on randomness and sleeping.
- `resync/http.py`, the change memory and the rest of the repository are not part of this model.
- A lastmod read from a sitemap is kept as its text. No date parsing is modelled.
