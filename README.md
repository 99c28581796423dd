# fspotfs in Dafny

This project models fspotfs, a read-only FUSE filesystem that shows an F-Spot photo collection as a tree of directories.

- Each tag is a directory. It lists the tags directly below it and the photos it shows.
- Each photo is a symbolic link to the image file on disk.
- Without the `repeated` switch, a photo assigned to a tag and to a tag below it is not shown at the upper one; it is shown at the most specific tags it carries.
- Every operation goes through a memo cache.

The database is an immutable snapshot of the three tables the program reads:
- `tags(id, name, category_id)`, where category_id names the parent tag;
- `photos(id, filename, base_uri)`;
- `photo_tags(photo_id, tag_id)`.

Each SQL statement becomes a comprehension over that snapshot. Each table is a sequence, and its order stands for the order in which SQLite returns rows. Only the `LIMIT 1` statements depend on that order.

Modules:

- `Options`: the option type.
- `Ordering`: how directory listings are sorted.
  - Python's string order.
  - A functional insertion sort, the reference for what a sorted listing holds.
  - The in-place sort of an array that `list.sort` performs.
- `Paths`: `basename`, `dirname` and `join`, as posixpath defines them.
- `Percent`: `urllib.unquote`, the percent-decoding of section 2.1 of RFC 3986, applied as Python 2 applies it to a unicode text: each `%XX` becomes the one character whose code is the octet XX.
- `Sql`: `prepare_in`, and SQLite's `replace()`.
- `Catalog`: the tables and the statements over them.
  - The tag hierarchy, required to be a forest (tag ids unique, no cycle of category links).
  - `tag_childs`, with the proof that it returns exactly the tags strictly below its argument.
- `Resolver`: what each filesystem operation answers, as a function of the snapshot and `repeated`, and the properties given in the table below.
- `CacheKey`: the memoized calls, and the string key the `cls_cached` decorator builds for each of them.
- `FSpotFS`: class `Filesystem`.
  - It holds the snapshot, the switch and a cache `map<Call, Value>`.
  - Each operation is a method that looks the call up and, on a miss, computes it (calling the other memoized methods, as the source does) and stores it.
  - Each method is proved to return the `Resolver` value.
  - The invariant `Valid()` holds before and after every call: every entry holds the value of its call.

Where the behaviour of the code is easy to misread, the model follows the code. The deliberate departures are the cache key (see "## Left out" and "## Findings") and names outside plain ASCII, which the model treats like any other names (see "## Left out").

- **The root listing.** The root directory lists the top-level tags and `file_names(0)` (`fspotfs/fspotfs.py:298`). Those are the photos assigned to the tag id 0, normally none, rather than every photo.
- **A directory no tag is named after** lists every tag and every photo, because `tag_to_id` gives `None` there.
- **Where a photo tagged at A and at B below A is shown.** The code does not show it at A. It need not show it at B either: it is shown at the most specific tags it carries, which may lie further below B.
- **`replace(p.base_uri, 'file://', '')`** removes every occurrence of `file://` from the base URI, not only a leading one.

## Model

| member | source | states |
|---|---|---|
| Catalog.TagId | fspotfs/fspotfs.py:210-216 | `None` exactly when no tag has the name; otherwise the id of a tag that has it |
| Catalog.TagIdFirst | fspotfs/fspotfs.py:70 | with `LIMIT 1`, the id is that of the first tag in table order with the name |
| Catalog.JoinPhotos | fspotfs/fspotfs.py:43-45 | the join yields exactly the photos some of the given photo_tags rows refer to |
| Catalog.Filenames | fspotfs/fspotfs.py:234 | one name per row, in row order: the filename of that row |
| Catalog.LeafPhotosMembers | fspotfs/fspotfs.py:60-64 | LEAF_PHOTOS yields exactly the photos assigned to the tag |
| Catalog.TaggedWithinMembers | fspotfs/fspotfs.py:55-57 | a photo id is outside the sub-query exactly when it is assigned to none of the listed tags |
| Catalog.TagPhotosMembers | fspotfs/fspotfs.py:50-57 | TAG_PHOTOS yields exactly the photos assigned to the tag and to none of the listed tags |
| Catalog.FileRowFound | fspotfs/fspotfs.py:41-47 | FILE_SQL finds a row exactly when a photo of that name is assigned to the tag, and the row it finds is such a photo |
| Catalog.BelowAdd | fspotfs/fspotfs.py:191-193 | collecting one more child's call adds exactly that call's result to what has been collected |
| Catalog.SubtagIds | fspotfs/fspotfs.py:79 | no contract of its own: SUBTAG_IDS as a set comprehension; tag_childs' proofs characterise it (Catalog.TagChildsAreDescendants) |
| Catalog.SubtagNames | fspotfs/fspotfs.py:76 | no contract of its own: SUBTAG_NAMES as a selection in table order; its members are given by Resolver.TagNames |
| Catalog.AllTagNames | fspotfs/fspotfs.py:73 | no contract of its own: TAG_NAMES; its members are given by Resolver.TagNames |
| Catalog.LeafPhotos | fspotfs/fspotfs.py:60-64 | no contract of its own: LEAF_PHOTOS; characterised by Catalog.LeafPhotosMembers |
| Catalog.TagPhotos | fspotfs/fspotfs.py:50-57 | no contract of its own: TAG_PHOTOS with its IN list; characterised by Catalog.TagPhotosMembers |
| Catalog.FileRow | fspotfs/fspotfs.py:41-47 | no contract of its own: FILE_SQL with LIMIT 1; characterised by Catalog.FileRowFound |
| Catalog.TagChilds | fspotfs/fspotfs.py:184-194 | no contract of its own: the immediate children together with each child's own result, recursing down a strictly decreasing rank; characterised by Catalog.TagChildsAreDescendants and Catalog.TagChildsExcludesAncestors |
| Catalog.TagChildsAreDescendants | fspotfs/fspotfs.py:184-194 | d is in tag_childs(p) exactly when d lies strictly below p (some chain of one or more category links leads from d to p) |
| Catalog.TagChildsExcludesAncestors | fspotfs/fspotfs.py:184-194 | tag_childs(p) never holds p itself, nor any tag above p |
| Catalog.TagChildsNested | fspotfs/fspotfs.py:184-194 | for d in tag_childs(p), tag_childs(d) is a proper subset of tag_childs(p) |
| Catalog.TagChildsShrink | fspotfs/fspotfs.py:184-194 | fewer tags lie below a tag than below any tag above it |
| Sql.Marks | fspotfs/fspotfs.py:132 | `', '.join('?' for item in items)` has exactly one `?` per item, and length 3n-2 (0 for no item) |
| Sql.Placeholders | fspotfs/fspotfs.py:132 | the parenthesised list of marks has exactly one `?` per item |
| Sql.PrepareInNoDirective | fspotfs/fspotfs.py:129-132 | a statement without a `%` comes out of prepare_in unchanged |
| Sql.PrepareInSplices | fspotfs/fspotfs.py:129-132 | a statement with one `%(in_items)s` placeholder gets the placeholder replaced by `(?, ..., ?)` and the rest of its text unchanged |
| Sql.PrepareInMarkCount | fspotfs/fspotfs.py:129-132 | the filled statement has one `?` per item more than the text around the placeholder |
| Sql.PrepareIn | fspotfs/fspotfs.py:129-132 | no contract of its own: `sql % {'in_items': ...}`; characterised by Sql.PrepareInNoDirective, Sql.PrepareInSplices and Sql.PrepareInMarkCount |
| Sql.Replace | fspotfs/fspotfs.py:41 | no contract of its own: SQLite's replace(); characterised by Sql.ReplaceAbsent and Sql.StripScheme |
| Sql.ReplaceAbsent | fspotfs/fspotfs.py:41 | replace() leaves a text without the pattern unchanged |
| Sql.StripScheme | fspotfs/fspotfs.py:41 | removing `file://` from `file://` + path gives path back when path has no other occurrence |
| Percent.Unquote | fspotfs/fspotfs.py:247 | unquoting never lengthens a text, gives empty output only for empty input, and leaves a text without `%` unchanged |
| Percent.UnquoteEncode | fspotfs/fspotfs.py:247 | unquote undoes a percent-encoding that writes each escaped character below code 256 as one `%XX`, whichever of those characters it escapes and keeps literally (a base such as `/pics/My%20Trip` included), as long as a literal `%` is escaped. It does not cover UTF-8 escapes; see Percent.UnquoteKeepsOctets |
| Percent.UnquoteKeepsOctets | fspotfs/fspotfs.py:247 | the UTF-8 escape `%C3%A9` of `é` decodes to the two characters `Ã©`, not back to `é` |
| Paths.Basename | fspotfs/fspotfs.py:22 | basename has no `/` in it |
| Paths.BasenameSuffix | fspotfs/fspotfs.py:22 | basename is a suffix of the path, and a `/` comes right before it unless it is the whole path |
| Paths.StripTrailingSlashes | fspotfs/fspotfs.py:22 | rstrip('/') yields a prefix of its input that does not end in `/`, and what it removes is nothing but `/` characters |
| Paths.Dirname | fspotfs/fspotfs.py:22 | no contract of its own: posixpath.dirname; characterised by Paths.ChildPath |
| Paths.Join | fspotfs/fspotfs.py:22 | no contract of its own: posixpath.join of two parts; characterised by Paths.BasenameOfJoin and Paths.JoinAvoids |
| Paths.BasenameOfJoin | fspotfs/fspotfs.py:247 | the name of `join(a, b)` is the name of b, so a link target ends in the photo's name |
| Paths.JoinAvoids | fspotfs/fspotfs.py:247 | join introduces no character other than `/` |
| Paths.ChildPath | fspotfs/fspotfs.py:268 | for `dir + "/" + name`, basename gives name and dirname gives dir |
| Ordering.LexTotal | fspotfs/fspotfs.py:302 | any two names are comparable in the order the listing is sorted by |
| Ordering.LexAntisymmetric | fspotfs/fspotfs.py:302 | two names that are each at most the other are equal |
| Ordering.LexTransitive | fspotfs/fspotfs.py:302 | the order is transitive |
| Ordering.Insert | fspotfs/fspotfs.py:302 | inserting adds exactly that one element to the multiset |
| Ordering.InsertSorted | fspotfs/fspotfs.py:302 | inserting into a sorted sequence keeps it sorted |
| Ordering.Sort | fspotfs/fspotfs.py:302 | the sorted listing is sorted and a permutation of its input |
| Ordering.SortedUnique | fspotfs/fspotfs.py:302 | two sorted permutations of one listing are equal, so the sorted result does not depend on how it was reached |
| Ordering.SortSorted | fspotfs/fspotfs.py:307 | sorting a sorted listing changes nothing |
| Ordering.InsertLast | fspotfs/fspotfs.py:302 | one pass of the in-place sort extends the sorted prefix by one, permutes the array and leaves the part after the new element unchanged |
| Ordering.SortInPlace | fspotfs/fspotfs.py:302 | `list.sort` leaves the array holding the sorted permutation of its old contents |
| Resolver.PhotoRows | fspotfs/fspotfs.py:218-234 | no contract of its own: the branches of file_names choosing ALL_PHOTOS, TAG_PHOTOS or LEAF_PHOTOS; characterised by Resolver.PhotoRowsMembers |
| Resolver.FileNames | fspotfs/fspotfs.py:218-234 | no contract of its own: `[file[0] for file in files]` of those rows; characterised by Resolver.FileNamesAreFiles, Resolver.ParentLosesDescendantFile and Resolver.ReadDirMembers |
| Resolver.LinkPath | fspotfs/fspotfs.py:241-250 | no contract of its own: the decoded target of the FILE_SQL row, or `''`; characterised by Resolver.LinkPathFound and Resolver.LinkPathLocal |
| Resolver.IsDir | fspotfs/fspotfs.py:252-255 | no contract of its own: `.`, `..`, `/` or a tag's name; its use is characterised by Resolver.GetAttrClassifies |
| Resolver.IsFile | fspotfs/fspotfs.py:257-259 | no contract of its own: the basename is a photo's name; implied by being listed (Resolver.FileNamesAreFiles) |
| Resolver.FolderOf | fspotfs/fspotfs.py:268 | no contract of its own: `basename(dirname(path))`; characterised by Paths.ChildPath |
| Resolver.Listed | fspotfs/fspotfs.py:269 | no contract of its own: the test `fname in self.file_names(self.tag_to_id(tag))` that getattr and access share |
| Resolver.GetAttr | fspotfs/fspotfs.py:261-271 | no contract of its own: the branches of getattr; characterised by Resolver.GetAttrClassifies |
| Resolver.ReadLink | fspotfs/fspotfs.py:273-276 | no contract of its own: link_path of the folder and the name; characterised by Resolver.GetAttrClassifies and Resolver.ListedFilesLink |
| Resolver.Access | fspotfs/fspotfs.py:278-288 | no contract of its own: the condition of access; characterised by Resolver.AccessAgreesWithGetAttr |
| Resolver.ListedTag | fspotfs/fspotfs.py:298 | no contract of its own: 0 at `/`, otherwise tag_to_id of the basename; used by Resolver.ReadDirOfTag, Resolver.ReadDirOfRoot and Resolver.ReadDirOfUnknown |
| Resolver.TagNames | fspotfs/fspotfs.py:196-203 | the names are exactly those of the tags under parent, or of every tag when parent is None |
| Resolver.ReadDir | fspotfs/fspotfs.py:296-309 | the listing has 2 + #tags + #files entries: `.`, `..`, then the tag names sorted and a permutation of tag_names(parent), then the file names sorted and a permutation of file_names(parent) |
| Resolver.PhotoRowsMembers | fspotfs/fspotfs.py:218-234 | with no tag: exactly every photo. With a tag: exactly the photos assigned to it and, unless repeated, assigned to no tag below it |
| Resolver.ParentLosesDescendantPhoto | fspotfs/fspotfs.py:222-227 | without repeated, a photo assigned to a tag and to a tag below it is not shown at the upper one |
| Resolver.RepeatedShowsAssigned | fspotfs/fspotfs.py:230-231 | with repeated, a tag shows exactly the photos assigned to it |
| Resolver.ShownOncePerLine | fspotfs/fspotfs.py:222-227 | without repeated, of two tags that show one photo, neither is below the other |
| Resolver.DeeperAssignment | fspotfs/fspotfs.py:222-227 | a photo assigned to t but not shown at t is assigned to a tag below t, under which fewer tags lie |
| Resolver.CanonicalLocation | fspotfs/fspotfs.py:222-227 | without repeated, a photo assigned to t is shown at t or at some tag below t: hiding it never loses it |
| Resolver.FileNamesAreFiles | fspotfs/fspotfs.py:218-234 | every name file_names lists is the name of some photo |
| Resolver.ParentLosesDescendantFile | fspotfs/fspotfs.py:218-234 | on names: a photo whose name no other photo has is missing from the upper tag's file names when a tag below also carries it |
| Resolver.LinkPathFound | fspotfs/fspotfs.py:241-250 | link_path is non-empty exactly when the tag exists and a photo of that name is assigned to it |
| Resolver.LinkPathLocal | fspotfs/fspotfs.py:241-250 | for a photo stored under `file://` + dir, the target is `join(dir, name)` when neither part holds a `%` |
| Resolver.GetAttrClassifies | fspotfs/fspotfs.py:261-271 | a directory exactly for is_dir paths, so a tag name shadows a photo name; a link exactly for a listed photo that is not a directory, pointing where readlink points; otherwise -ENOENT |
| Resolver.AccessAgreesWithGetAttr | fspotfs/fspotfs.py:278-288 | access gives 0 exactly when getattr finds the path, and -EINVAL otherwise |
| Resolver.ReadDirMembers | fspotfs/fspotfs.py:296-309 | a name is in the directory part exactly when it is in tag_names(parent), and in the file part exactly when a photo with that name is shown at parent |
| Resolver.ReadDirOfTag | fspotfs/fspotfs.py:298-306 | a tag's directory shows its immediate sub-tags and the photos the tag shows |
| Resolver.ReadDirOfRoot | fspotfs/fspotfs.py:298 | the root shows the top-level tags and the photos shown at tag id 0 |
| Resolver.ReadDirOfUnknown | fspotfs/fspotfs.py:298 | a directory no tag is named after shows every tag and every photo |
| Resolver.ListedFilesLink | fspotfs/fspotfs.py:273-276 | every photo listed in a tag's directory has a non-empty readlink target |
| CacheKey.SourceKey | fspotfs/fspotfs.py:95-96 | no contract of its own: `'_'.join([prefix] + map(str, args) + filter(None, kwargs.values()))`; characterised by CacheKey.LinkPathKey |
| CacheKey.KeyOf | fspotfs/fspotfs.py:95-96 | no contract of its own: the key of each memoized call, all arguments positional as every call site passes them; characterised by CacheKey.LinkPathKeyInjective and CacheKey.LinkPathKeysCollide |
| CacheKey.NonEmpty | fspotfs/fspotfs.py:96 | `filter(None, values)` keeps exactly the non-empty values |
| CacheKey.LinkPathKey | fspotfs/fspotfs.py:95-96 | a link_path call gets the key `link_path_<tag>_<name>` |
| CacheKey.LinkPathKeyInjective | fspotfs/fspotfs.py:95-96 | when no name contains `_`, equal link_path keys mean equal calls |
| CacheKey.LinkPathKeysCollide | fspotfs/fspotfs.py:95-96 | two different link_path calls share one key |
| FSpotFS.SourceCached | fspotfs/fspotfs.py:92-99 | the string-keyed wrapper: on a hit it returns the stored value and leaves the cache alone; on a miss it stores the computed value under the key and returns it |
| FSpotFS.CollidingLinks | fspotfs/fspotfs.py:241-250 | in a concrete snapshot, link_path("a_b", "c") and link_path("a", "b_c") have different targets |
| FSpotFS.SourceCacheServesWrongTarget | fspotfs/fspotfs.py:95-99 | after link_path("a_b", "c"), the string-keyed cache answers link_path("a", "b_c") with the other photo's target |
| FSpotFS.Filesystem.constructor | fspotfs/fspotfs.py:169-172 | keeps the database and the switch, with an empty cache that satisfies the invariant |
| FSpotFS.Filesystem.Store | fspotfs/fspotfs.py:97-98 | inserting a call's own value adds that one entry and keeps the invariant |
| FSpotFS.Filesystem.TagChilds | fspotfs/fspotfs.py:184-194 | returns tag_childs(parent), keeps the invariant, leaves its entry, and changes nothing on a hit |
| FSpotFS.Filesystem.TagNames | fspotfs/fspotfs.py:196-203 | returns tag_names(parent) and is memoized under the same terms; on a miss the cache gains its own entry and nothing else |
| FSpotFS.Filesystem.EncodedTagNames | fspotfs/fspotfs.py:205-208 | returns every tag name and is memoized |
| FSpotFS.Filesystem.TagToId | fspotfs/fspotfs.py:210-216 | returns the TAG_ID lookup and is memoized; on a miss the cache gains its own entry and nothing else |
| FSpotFS.Filesystem.FileNames | fspotfs/fspotfs.py:218-234 | returns file_names(tag) and is memoized |
| FSpotFS.Filesystem.EncodedFileNames | fspotfs/fspotfs.py:236-239 | returns every photo name and is memoized |
| FSpotFS.Filesystem.LinkPath | fspotfs/fspotfs.py:241-250 | returns the target of that very call, whatever else the cache holds, and is memoized |
| FSpotFS.Filesystem.IsDir | fspotfs/fspotfs.py:252-255 | returns is_dir(path), keeps the invariant and loses no entry |
| FSpotFS.Filesystem.IsFile | fspotfs/fspotfs.py:257-259 | returns is_file(path), keeps the invariant and loses no entry |
| FSpotFS.Filesystem.Listed | fspotfs/fspotfs.py:283-286 | returns whether the name is among the file names of the tag its directory names |
| FSpotFS.Filesystem.GetAttr | fspotfs/fspotfs.py:261-271 | returns the classification of the path and is memoized |
| FSpotFS.Filesystem.ReadLink | fspotfs/fspotfs.py:273-276 | returns link_path(basename(dirname(path)), basename(path)) and is memoized |
| FSpotFS.Filesystem.Access | fspotfs/fspotfs.py:278-288 | returns 0 or -EINVAL as access decides and is memoized |
| FSpotFS.Filesystem.SortedList | fspotfs/fspotfs.py:300-302 | building a list and sorting it in place yields the sorted permutation of the names |
| FSpotFS.Filesystem.ReadDir | fspotfs/fspotfs.py:296-309 | returns the listing `Resolver.ReadDir` describes and is memoized |

## Left out

- Reading the database: the connection, cursors, PRAGMAs and `query`/`query_one` are foreign calls into sqlite3. The snapshot's tables stand in for what they return.
- A `photo_tags` row whose photo does not exist: the LEFT JOIN would give a NULL file name, but the model's join drops the row.
- `DB_VERSION_SQL`, `run()` and the version check: option parsing, environment variables and the float comparison of the schema version, done before the filesystem starts.
- Stat objects: the times come from the clock, and the size of a link comes from `os.stat` of its target on disk. getattr's result is modelled as directory, link to a target, or errno.
- Resolver.GetAttr and Resolver.AccessAgreesWithGetAttr: `ImageLinkStat` calls `os.stat` on the target (`fspotfs/fspotfs.py:160`), which raises for every target that does not exist on disk, so the `else 0` at `fspotfs/fspotfs.py:161` is never reached. That happens for a moved or deleted image, for a `base_uri` that is not a local path, and for the `""` target of a path such as `/x.jpg` whose folder names no tag. getattr then fails in the source, while access (`fspotfs/fspotfs.py:283-287`) still returns 0. The model treats `os.stat` as always succeeding, so `Resolver.GetAttrClassifies` and `Resolver.AccessAgreesWithGetAttr` hold of the model only; in the source they hold only for targets that exist on disk.
- The `readdir` generator that yields the entries one by one, and `fuse.Direntry`: listings are sequences of names, and the offset is ignored as in the source.
- Percent.Unquote: non-ASCII directories in `base_uri`. F-Spot stores them as percent-encoded UTF-8 octets; Python 2's `unquote` of the unicode value sqlite3 returns turns each octet into one Latin-1 character, and `fspotfs/fspotfs.py:247` then encodes that to UTF-8. So a folder named `é`, stored as `file:///p/%C3%A9`, gives the target `/p/Ã©/…`. The model reproduces this (Percent.UnquoteKeepsOctets) and does not decode UTF-8 escapes; no claim is made that such a link reaches the image.
- Encoding to UTF-8: names are sequences of characters, and the model's answers hold only for plain-ASCII tag and file names. For ASCII names the byte order of UTF-8 and the code-point order the listings are sorted by agree. Two mechanisms make the source behave differently on other names, and neither is modelled:
  - Query parameters. `query` and `query_one` pass each parameter through `str()` (`fspotfs/fspotfs.py:176`, `fspotfs/fspotfs.py:181`), the path a FUSE call supplies is a byte string, and the connection keeps sqlite3's default unicode text factory (`fspotfs/fspotfs.py:106`). Python 2's sqlite3 raises ProgrammingError for an 8-bit byte string, and `tag_to_id` catches only TypeError and KeyError (`fspotfs/fspotfs.py:215`). So readdir, getattr, access and readlink on a path through a non-ASCII tag name raise in the source, and so does `link_path` for a non-ASCII file name (`fspotfs/fspotfs.py:244`). `Resolver.ReadDir`, `Resolver.GetAttr`, `Resolver.Access` and `Resolver.ReadLink` answer instead.
  - Byte strings against unicode names. getattr and access compare the byte-string basename with the unicode names `file_names` returns (`fspotfs/fspotfs.py:269`, `fspotfs/fspotfs.py:285-286`), not with the encoded names of `fspotfs/fspotfs.py:239`. In Python 2 a non-ASCII byte string never equals a unicode string, so a non-ASCII photo name that readdir lists gets -ENOENT from getattr and -EINVAL from access. `Resolver.GetAttrClassifies` and `Resolver.ListedFilesLink` hold for the model's character names, not for such names in the source.
- The `tag_childs` result as text: the source returns the ids as strings in a list. The model uses a set of integers. SQLite compares a text id with an integer column as a number, and the list has no repeated ids in a forest.
- Concurrency: the cache has no lock, and calls are modelled one at a time.
- FSpotFS.Filesystem: the cache is keyed by the call itself (`CacheKey.Call`), not by the string the source builds at `fspotfs/fspotfs.py:95-96`. That string key is modelled separately by `CacheKey.KeyOf` and `FSpotFS.SourceCached`, which exhibit where it collides (see "## Findings").
- The source's `_cache` is one module-level dictionary (`fspotfs/fspotfs.py:86`) shared by every FSpotFS object, whatever its database path or `repeated` switch. The model's cache belongs to one `Filesystem` object, whose snapshot and switch are fixed.
- FSpotFS.Eval and FSpotFS.Filesystem.constructor require the hierarchy to be a forest even when `repeated` is set. The source calls tag_childs only without `repeated` (`fspotfs/fspotfs.py:223-224`), so it would also serve a cyclic hierarchy in that mode. The `Resolver` functions themselves require a forest only without `repeated`. The forest also requires unique tag ids, which the table's key guarantees.
- Resolver.PhotoRows: SQLite's limit on host parameters is not modelled. Without `repeated`, the statement at `fspotfs/fspotfs.py:225-227` binds the tag and every tag below it, 1 + |tag_childs(tag)| parameters (at the root, `file_names(0)` binds every top-level tag and everything below it). SQLite refuses more than its limit (999 by default before version 3.32) and sqlite3 raises OperationalError, so such a listing fails in the source, while `Resolver.FileNames` and `Resolver.ReadDir` always answer.
- A guard against cycles of category links: the source has none. On a cyclic hierarchy `tag_childs` calls itself until Python raises RuntimeError (maximum recursion depth); `cls_cached` stores an entry only after the call returns, so nothing is cached. The snapshot is therefore required to form a forest.
- The two keys of one value: the source keeps `tag_names` and `tag_names_None` (likewise `file_names` and `file_names_None`) as two string keys for one value. The typed cache keeps one entry.
- FSpotFS.Filesystem.TagChilds, and likewise EncodedTagNames, FileNames, EncodedFileNames, LinkPath, GetAttr, ReadLink, Access and ReadDir, the cached methods that call other cached methods: the contract guarantees the result, the invariant, the call's own entry, no lost entry and no change on a hit. On a miss it does not limit which other entries the nested calls add. TagNames and TagToId make no nested call, and their contracts state that a miss adds only their own entry.
- CacheKey.LinkPathKeyInjective: stated only for link_path; the other calls have one free text argument, or texts followed by a number, and their keys are not shown to be injective.

## Findings

| source | as written | input that shows it | evidently intended | confidence | as-written member | corrected member |
|---|---|---|---|---|---|---|
| fspotfs/fspotfs.py:95-99 | the cache key joins the prefix and the arguments with `_`, so two different `link_path` calls whose tag or file names contain `_` get one key, and the second call is answered from the first call's entry | tag "a_b" holding photo "c" and tag "a" holding photo "b_c": after `link_path("a_b", "c")`, `link_path("a", "b_c")` returns `/x/c` instead of `/y/b_c` | each call is answered with its own result | not executed | FSpotFS.SourceCacheServesWrongTarget | FSpotFS.Filesystem.LinkPath |
