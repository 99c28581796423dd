/** What each operation of the filesystem answers, as a function of the
    database snapshot and the `repeated` switch: the reference the cached
    methods of FSpotFS.Filesystem are proved against, and the properties
    of it that the source's comments and branches promise. */
module Resolver {
  import opened Options
  import opened Catalog
  import Paths
  import Percent
  import Sql
  import Ordering

  /** errno values of the two errors the operations report. */
  const ENOENT := 2
  const EINVAL := 22

  /** What getattr reports: a directory, a symbolic link to a photo (the
      stat of its target is taken from the disk, which is not part of this
      model), or a negated errno. */
  datatype Stat = DirStat | LinkStat(target: string) | Errno(code: int)

  /** tag_names: the names of the tags under parent, or of every tag. */
  function TagNames(db: Db, parent: Option<int>): (r: seq<string>)
    ensures forall n :: n in r <==>
      exists t | t in db.tags :: t.name == n && (parent.None? || t.category == parent.value)
  {
    match parent
    case None => AllTagNames(db)
    case Some(p) => SubtagNames(db, p)
  }

  /** The photo rows file_names lists for tag. */
  function PhotoRows(db: Db, repeated: bool, tag: Option<int>): seq<Photo>
    requires tag.Some? && !repeated ==> Forest(db)
  {
    match tag
    case None => db.photos
    case Some(t) =>
      if !repeated && TagChilds(db, t) != {} then TagPhotos(db, t, TagChilds(db, t))
      else LeafPhotos(db, t)
  }

  /** file_names: the file names of those rows. */
  function FileNames(db: Db, repeated: bool, tag: Option<int>): seq<string>
    requires tag.Some? && !repeated ==> Forest(db)
  {
    Filenames(PhotoRows(db, repeated, tag))
  }

  /** link_path: the decoded path of the photo named name under the tag
      named tag, or "" when there is no such photo. */
  function LinkPath(db: Db, tag: string, name: string): string {
    RowTarget(FileRow(db, TagId(db.tags, tag), name))
  }

  /** The unpacking of the row: its target, or "" when there is no row. */
  function RowTarget(row: Option<Photo>): string {
    match row
    case None => ""
    case Some(p) => Target(p)
  }

  /** The decoded path of a photo: its base URI with every "file://"
      removed, joined with its file name. */
  function Target(p: Photo): string {
    Percent.Unquote(Paths.Join(Sql.Replace(p.baseUri, "file://", ""), p.filename))
  }

  /** is_dir: ".", "..", "/" or a path whose last part is a tag's name. */
  function IsDir(db: Db, path: string): bool {
    path == "." || path == ".." || path == "/" || Paths.Basename(path) in AllTagNames(db)
  }

  /** is_file: a path whose last part is some photo's file name. */
  function IsFile(db: Db, path: string): bool {
    Paths.Basename(path) in Filenames(db.photos)
  }

  /** The tag a path names the photo under: the name of its directory. */
  function FolderOf(path: string): string {
    Paths.Basename(Paths.Dirname(path))
  }

  /** The photo name is listed under the tag its directory names. */
  function Listed(db: Db, repeated: bool, path: string): bool
    requires !repeated ==> Forest(db)
  {
    Paths.Basename(path) in FileNames(db, repeated, TagId(db.tags, FolderOf(path)))
  }

  /** getattr. */
  function GetAttr(db: Db, repeated: bool, path: string): Stat
    requires !repeated ==> Forest(db)
  {
    if IsDir(db, path) then DirStat
    else if IsFile(db, path) && Listed(db, repeated, path) then
      LinkStat(LinkPath(db, FolderOf(path), Paths.Basename(path)))
    else Errno(-ENOENT)
  }

  /** readlink. */
  function ReadLink(db: Db, path: string): string {
    LinkPath(db, FolderOf(path), Paths.Basename(path))
  }

  /** access: the requested mode is not looked at. */
  function Access(db: Db, repeated: bool, path: string, mode: int): int
    requires !repeated ==> Forest(db)
  {
    if IsDir(db, path) || (IsFile(db, path) && Listed(db, repeated, path)) then 0
    else -EINVAL
  }

  /** The tag whose entries a listing of path shows. */
  function ListedTag(db: Db, path: string): Option<int> {
    if path == "/" then Some(0) else TagId(db.tags, Paths.Basename(path))
  }

  /** _readdir: ".", "..", the sorted names of the tags below the listed
      tag, then the sorted names of its photos. */
  function ReadDir(db: Db, repeated: bool, path: string): (r: seq<string>)
    requires !repeated ==> Forest(db)
    ensures var dirs := TagNames(db, ListedTag(db, path));
            var files := FileNames(db, repeated, ListedTag(db, path));
            && |r| == 2 + |dirs| + |files|
            && r[..2] == [".", ".."]
            && Ordering.Sorted(r[2..2 + |dirs|]) && multiset(r[2..2 + |dirs|]) == multiset(dirs)
            && Ordering.Sorted(r[2 + |dirs|..]) && multiset(r[2 + |dirs|..]) == multiset(files)
  {
    var parent := ListedTag(db, path);
    var dirs := Ordering.Sort(TagNames(db, parent));
    var files := Ordering.Sort(FileNames(db, repeated, parent));
    ListingParts(dirs, files);
    [".", ".."] + dirs + files
  }

  /** Where the two parts of a listing sit after "." and "..". */
  lemma {:induction false} ListingParts(dirs: seq<string>, files: seq<string>)
    ensures var r := [".", ".."] + dirs + files;
            && |r| == 2 + |dirs| + |files| && r[..2] == [".", ".."]
            && r[2..2 + |dirs|] == dirs && r[2 + |dirs|..] == files
  {
    var r := [".", ".."] + dirs + files;
    assert r[2..2 + |dirs|] == dirs;
    assert r[2 + |dirs|..] == files;
  }

  // ---------------------------------------------------------------------
  // Which photos a tag shows

  /** p is assigned to no tag strictly below t. */
  ghost predicate MostSpecific(db: Db, p: Photo, t: int) {
    forall r | r in db.photoTags && r.photo == p.id :: !Descends(db, r.tag, t)
  }

  /** A tag shows the photos assigned to it, except, unless repeated, those
      also assigned to a tag below it; no tag shows all photos. */
  lemma {:induction false} PhotoRowsMembers(db: Db, repeated: bool, tag: Option<int>, p: Photo)
    requires tag.Some? && !repeated ==> Forest(db)
    ensures tag.None? ==> (p in PhotoRows(db, repeated, tag) <==> p in db.photos)
    ensures tag.Some? ==> (p in PhotoRows(db, repeated, tag) <==>
      && p in db.photos
      && PhotoTag(p.id, tag.value) in db.photoTags
      && (repeated || MostSpecific(db, p, tag.value)))
  {
    if tag.Some? {
      var t := tag.value;
      LeafPhotosMembers(db, t, p);
      if !repeated {
        var below := TagChilds(db, t);
        TagPhotosMembers(db, t, below, p);
        if below == {} {
          forall r | r in db.photoTags && r.photo == p.id ensures !Descends(db, r.tag, t) {
            TagChildsAreDescendants(db, t, r.tag);
          }
        } else {
          if MostSpecific(db, p, t) {
            forall d | d in below ensures PhotoTag(p.id, d) !in db.photoTags {
              TagChildsAreDescendants(db, t, d);
            }
          }
          if forall d | d in below :: PhotoTag(p.id, d) !in db.photoTags {
            forall r | r in db.photoTags && r.photo == p.id ensures !Descends(db, r.tag, t) {
              TagChildsAreDescendants(db, t, r.tag);
              assert r == PhotoTag(p.id, r.tag);
            }
          }
        }
      }
    }
  }

  /** Without repeated, a photo assigned to a tag and to a tag below it is
      not shown at the upper one. */
  lemma {:induction false} ParentLosesDescendantPhoto(db: Db, p: Photo, a: int, b: int)
    requires Forest(db) && Descends(db, b, a)
    requires PhotoTag(p.id, a) in db.photoTags && PhotoTag(p.id, b) in db.photoTags
    ensures p !in PhotoRows(db, false, Some(a))
  {
    PhotoRowsMembers(db, false, Some(a), p);
  }

  /** With repeated, every tag shows exactly the photos assigned to it. */
  lemma {:induction false} RepeatedShowsAssigned(db: Db, p: Photo, t: int)
    ensures p in PhotoRows(db, true, Some(t)) <==> p in db.photos && PhotoTag(p.id, t) in db.photoTags
  {
    PhotoRowsMembers(db, true, Some(t), p);
  }

  /** Without repeated, the tags that show a photo are never one below the
      other: along each line of the hierarchy it has one place. */
  lemma {:induction false} ShownOncePerLine(db: Db, p: Photo, a: int, b: int)
    requires Forest(db)
    requires p in PhotoRows(db, false, Some(a)) && p in PhotoRows(db, false, Some(b))
    ensures !Descends(db, b, a)
  {
    PhotoRowsMembers(db, false, Some(a), p);
    PhotoRowsMembers(db, false, Some(b), p);
    assert PhotoTag(p.id, b) in db.photoTags;
  }

  /** A photo assigned to t that t does not show is assigned to a tag c
      below t, under which fewer tags lie. */
  lemma {:induction false} DeeperAssignment(db: Db, p: Photo, t: int) returns (c: int)
    requires Forest(db) && p in db.photos && PhotoTag(p.id, t) in db.photoTags
    requires p !in PhotoRows(db, false, Some(t))
    ensures Descends(db, c, t) && PhotoTag(p.id, c) in db.photoTags
    ensures |TagChilds(db, c)| < |TagChilds(db, t)|
  {
    PhotoRowsMembers(db, false, Some(t), p);
    var r :| r in db.photoTags && r.photo == p.id && Descends(db, r.tag, t);
    assert r == PhotoTag(p.id, r.tag);
    c := r.tag;
    TagChildsShrink(db, t, c);
  }

  /** Without repeated, a photo assigned to t is still shown somewhere: at t
      or at a tag below it. */
  lemma {:induction false} CanonicalLocation(db: Db, p: Photo, t: int) returns (s: int)
    requires Forest(db) && p in db.photos && PhotoTag(p.id, t) in db.photoTags
    ensures s == t || Descends(db, s, t)
    ensures p in PhotoRows(db, false, Some(s))
    decreases |TagChilds(db, t)|
  {
    if p in PhotoRows(db, false, Some(t)) {
      s := t;
    } else {
      var c := DeeperAssignment(db, p, t);
      s := CanonicalLocation(db, p, c);
      if s != c {
        DescendsTransitive(db, s, c, t);
      }
    }
  }

  /** The names a tag lists are names of photos. */
  lemma {:induction false} FileNamesAreFiles(db: Db, repeated: bool, tag: Option<int>, f: string)
    requires tag.Some? && !repeated ==> Forest(db)
    requires f in FileNames(db, repeated, tag)
    ensures f in Filenames(db.photos)
  {
    var p :| p in PhotoRows(db, repeated, tag) && p.filename == f;
  }

  /** On file names: a photo whose name no other photo has is, without
      repeated, not listed by a tag when a tag below that one has it too. */
  lemma {:induction false} ParentLosesDescendantFile(db: Db, p: Photo, a: int, b: int)
    requires Forest(db) && Descends(db, b, a)
    requires PhotoTag(p.id, a) in db.photoTags && PhotoTag(p.id, b) in db.photoTags
    requires forall q | q in db.photos && q.filename == p.filename :: q == p
    ensures p.filename !in FileNames(db, false, Some(a))
  {
    if p.filename in FileNames(db, false, Some(a)) {
      var q :| q in PhotoRows(db, false, Some(a)) && q.filename == p.filename;
      PhotoRowsMembers(db, false, Some(a), q);
      ParentLosesDescendantPhoto(db, p, a, b);
    }
  }

  // ---------------------------------------------------------------------
  // Links

  /** link_path finds a target exactly when a photo of that name is
      assigned to the tag so named; the target then ends in that name. */
  lemma {:induction false} LinkPathFound(db: Db, tag: string, name: string)
    requires name != []
    ensures LinkPath(db, tag, name) != "" <==>
      && TagId(db.tags, tag).Some?
      && exists p | p in db.photos :: p.filename == name && PhotoTag(p.id, TagId(db.tags, tag).value) in db.photoTags
  {
    match TagId(db.tags, tag)
    case None =>
    case Some(t) =>
      FileRowFound(db, t, name);
      match FileRow(db, Some(t), name)
      case None =>
      case Some(p) =>
        var j := Paths.Join(Sql.Replace(p.baseUri, "file://", ""), p.filename);
        assert j != [];
  }

  /** A photo stored under a local directory links to that directory joined
      with its name, when neither holds a '%' or a second scheme marker. */
  lemma {:induction false} LinkPathLocal(db: Db, tag: string, name: string, dir: string)
    requires FileRow(db, TagId(db.tags, tag), name).Some?
    requires FileRow(db, TagId(db.tags, tag), name).value.baseUri == "file://" + dir
    requires !Sql.Occurs("file://", dir) && '%' !in dir && '%' !in name
    ensures LinkPath(db, tag, name) == Paths.Join(dir, name)
  {
    var p := FileRow(db, TagId(db.tags, tag), name).value;
    FileRowFound(db, TagId(db.tags, tag).value, name);
    Sql.StripScheme(dir);
    Paths.JoinAvoids(dir, name, '%');
  }

  // ---------------------------------------------------------------------
  // Classification of paths

  /** getattr reports a directory exactly for is_dir paths, so a tag name
      shadows a photo name; a link exactly for a listed photo, pointing at
      what readlink returns; and ENOENT for everything else. */
  lemma {:induction false} GetAttrClassifies(db: Db, repeated: bool, path: string)
    requires !repeated ==> Forest(db)
    ensures GetAttr(db, repeated, path) == DirStat <==> IsDir(db, path)
    ensures GetAttr(db, repeated, path).LinkStat? <==> !IsDir(db, path) && Listed(db, repeated, path)
    ensures GetAttr(db, repeated, path).LinkStat? ==> GetAttr(db, repeated, path).target == ReadLink(db, path)
    ensures GetAttr(db, repeated, path).Errno? ==> GetAttr(db, repeated, path).code == -ENOENT
  {
    var s := GetAttr(db, repeated, path);
    if IsDir(db, path) {
      assert s == DirStat;
    } else if Listed(db, repeated, path) {
      FileNamesAreFiles(db, repeated, TagId(db.tags, FolderOf(path)), Paths.Basename(path));
      assert s == LinkStat(ReadLink(db, path));
    } else {
      assert s == Errno(-ENOENT);
    }
  }

  /** access grants exactly what getattr finds, and denies with EINVAL. */
  lemma {:induction false} AccessAgreesWithGetAttr(db: Db, repeated: bool, path: string, mode: int)
    requires !repeated ==> Forest(db)
    ensures Access(db, repeated, path, mode) == 0 <==> !GetAttr(db, repeated, path).Errno?
    ensures Access(db, repeated, path, mode) != 0 ==> Access(db, repeated, path, mode) == -EINVAL
  {
    GetAttrClassifies(db, repeated, path);
  }

  // ---------------------------------------------------------------------
  // Listings

  lemma {:induction false} SameMembers(a: seq<string>, b: seq<string>, n: string)
    requires multiset(a) == multiset(b)
    ensures n in a <==> n in b
  {
    assert n in a <==> n in multiset(a);
    assert n in b <==> n in multiset(b);
  }

  /** Where a listing shows a name: among its directories when it names a
      tag below the listed one, among its files when it names a photo the
      listed tag shows. */
  lemma {:induction false} ReadDirMembers(db: Db, repeated: bool, path: string, n: string)
    requires !repeated ==> Forest(db)
    ensures var r := ReadDir(db, repeated, path);
            var parent := ListedTag(db, path);
            var k := |TagNames(db, parent)|;
            && (n in r[2..2 + k] <==> n in TagNames(db, parent))
            && (n in r[2 + k..] <==> exists p | p in PhotoRows(db, repeated, parent) :: p.filename == n)
  {
    var r := ReadDir(db, repeated, path);
    var parent := ListedTag(db, path);
    var k := |TagNames(db, parent)|;
    SameMembers(r[2..2 + k], TagNames(db, parent), n);
    SameMembers(r[2 + k..], FileNames(db, repeated, parent), n);
  }

  /** A listing of a tag's directory shows the tags directly below it and
      the photos the tag shows. */
  lemma {:induction false} ReadDirOfTag(db: Db, repeated: bool, path: string, t: int, n: string)
    requires !repeated ==> Forest(db)
    requires path != "/" && TagId(db.tags, Paths.Basename(path)) == Some(t)
    ensures var r := ReadDir(db, repeated, path);
            var k := |TagNames(db, Some(t))|;
            && (n in r[2..2 + k] <==> exists g | g in db.tags :: g.name == n && g.category == t)
            && (n in r[2 + k..] <==> exists p | p in PhotoRows(db, repeated, Some(t)) :: p.filename == n)
  {
    ReadDirMembers(db, repeated, path, n);
  }

  /** The root lists the tags at the top of the hierarchy and the photos
      assigned to the tag id 0, which no F-Spot tag has. */
  lemma {:induction false} ReadDirOfRoot(db: Db, repeated: bool, n: string)
    requires !repeated ==> Forest(db)
    ensures var r := ReadDir(db, repeated, "/");
            var k := |TagNames(db, Some(0))|;
            && (n in r[2..2 + k] <==> exists g | g in db.tags :: g.name == n && g.category == 0)
            && (n in r[2 + k..] <==> exists p | p in PhotoRows(db, repeated, Some(0)) :: p.filename == n)
  {
    ReadDirMembers(db, repeated, "/", n);
  }

  /** A directory whose name is no tag's lists every tag and every photo. */
  lemma {:induction false} ReadDirOfUnknown(db: Db, repeated: bool, path: string, n: string)
    requires !repeated ==> Forest(db)
    requires path != "/" && TagId(db.tags, Paths.Basename(path)).None?
    ensures var r := ReadDir(db, repeated, path);
            var k := |TagNames(db, None)|;
            && (n in r[2..2 + k] <==> exists g | g in db.tags :: g.name == n)
            && (n in r[2 + k..] <==> exists p | p in db.photos :: p.filename == n)
  {
    ReadDirMembers(db, repeated, path, n);
  }

  /** Each photo listed in a tag's directory has a link target. */
  lemma {:induction false} ListedFilesLink(db: Db, repeated: bool, path: string, f: string)
    requires !repeated ==> Forest(db)
    requires path != "/" && path != [] && path[|path| - 1] != '/'
    requires TagId(db.tags, Paths.Basename(path)).Some?
    requires f != [] && '/' !in f
    requires f in ReadDir(db, repeated, path)[2 + |TagNames(db, ListedTag(db, path))|..]
    ensures ReadLink(db, path + "/" + f) != ""
  {
    var t := TagId(db.tags, Paths.Basename(path)).value;
    ReadDirOfTag(db, repeated, path, t, f);
    var p :| p in PhotoRows(db, repeated, Some(t)) && p.filename == f;
    PhotoRowsMembers(db, repeated, Some(t), p);
    Paths.ChildPath(path, f);
    LinkPathFound(db, Paths.Basename(path), f);
  }
}
