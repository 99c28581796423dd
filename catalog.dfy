/** The F-Spot database as an immutable snapshot of the three tables the
    filesystem reads, the SQL statements it runs as comprehensions over
    them, and the tag hierarchy they describe. */
module Catalog {
  import opened Options

  /** A row of `tags`; category is the id of the parent tag (0 for a tag at
      the top of the hierarchy). */
  datatype Tag = Tag(id: int, name: string, category: int)

  /** A row of `photos`: a file name and the URI of its directory. */
  datatype Photo = Photo(id: int, filename: string, baseUri: string)

  /** A row of `photo_tags`: photo is assigned tag. */
  datatype PhotoTag = PhotoTag(photo: int, tag: int)

  /** The snapshot. The order of each table is the order in which SQLite
      returns its rows; the statements here have no ORDER BY, so nothing
      below depends on it except which row a LIMIT 1 picks. */
  datatype Db = Db(tags: seq<Tag>, photos: seq<Photo>, photoTags: seq<PhotoTag>)

  // ---------------------------------------------------------------------
  // Shape of the data

  /** tags.id is the table's key. */
  predicate UniqueIds(tags: seq<Tag>) {
    forall i, j :: 0 <= i < j < |tags| ==> tags[i].id != tags[j].id
  }

  /** The category of the tag with this id, if there is one. */
  function ParentOf(tags: seq<Tag>, id: int): (r: Option<int>)
    ensures r.None? <==> forall t | t in tags :: t.id != id
  {
    if tags == [] then None
    else if tags[0].id == id then Some(tags[0].category)
    else ParentOf(tags[1..], id)
  }

  /** The category found belongs to a tag with that id. */
  lemma {:induction false} ParentOfRow(tags: seq<Tag>, id: int) returns (t: Tag)
    requires ParentOf(tags, id).Some?
    ensures t in tags && t.id == id && t.category == ParentOf(tags, id).value
  {
    if tags[0].id == id {
      t := tags[0];
    } else {
      t := ParentOfRow(tags[1..], id);
    }
  }

  /** The number of category links above id, when following them ends
      within fuel steps at an id that is no tag's; None otherwise. */
  function Depth(tags: seq<Tag>, id: int, fuel: nat): (r: Option<nat>)
    ensures r.Some? ==> r.value <= fuel
    decreases fuel
  {
    match ParentOf(tags, id)
    case None => Some(0)
    case Some(p) =>
      if fuel == 0 then None
      else match Depth(tags, p, fuel - 1)
        case None => None
        case Some(k) => Some(k + 1)
  }

  /** Following category links from any tag ends: the tags form a forest.
      The source has no guard against a cycle, so this is assumed of the
      database rather than checked. */
  ghost predicate Acyclic(db: Db) {
    forall t | t in db.tags :: Depth(db.tags, t.id, |db.tags|).Some?
  }

  ghost predicate Forest(db: Db) {
    UniqueIds(db.tags) && Acyclic(db)
  }

  lemma {:induction false} ParentOfTag(tags: seq<Tag>, t: Tag)
    requires UniqueIds(tags) && t in tags
    ensures ParentOf(tags, t.id) == Some(t.category)
  {
    if tags[0] != t {
      assert tags[0].id != t.id by {
        var i :| 0 <= i < |tags| && tags[i] == t;
        assert i != 0;
      }
      assert t in tags[1..];
      ParentOfTag(tags[1..], t);
    }
  }

  lemma {:induction false} DepthMonotone(tags: seq<Tag>, id: int, fuel: nat, more: nat)
    requires Depth(tags, id, fuel).Some? && fuel <= more
    ensures Depth(tags, id, more) == Depth(tags, id, fuel)
    decreases fuel
  {
    match ParentOf(tags, id)
    case None =>
    case Some(p) => DepthMonotone(tags, p, fuel - 1, more - 1);
  }

  lemma {:induction false} DepthDefined(db: Db, id: int)
    requires Acyclic(db)
    ensures Depth(db.tags, id, |db.tags|).Some?
  {
    if ParentOf(db.tags, id).Some? {
      var t := ParentOfRow(db.tags, id);
    }
  }

  /** A tag's depth is one more than its parent's. */
  lemma {:induction false} DepthStep(db: Db, c: int, p: int)
    requires Acyclic(db) && ParentOf(db.tags, c) == Some(p)
    ensures Depth(db.tags, c, |db.tags|).Some? && Depth(db.tags, p, |db.tags|).Some?
    ensures Depth(db.tags, c, |db.tags|).value == Depth(db.tags, p, |db.tags|).value + 1
  {
    var n := |db.tags|;
    DepthDefined(db, c);
    DepthMonotone(db.tags, p, n - 1, n);
  }

  /** The measure that tag_childs' recursion decreases. */
  ghost function Rank(db: Db, id: int): (r: nat)
    requires Acyclic(db)
    ensures r <= |db.tags|
  {
    DepthDefined(db, id);
    |db.tags| - Depth(db.tags, id, |db.tags|).value
  }

  // ---------------------------------------------------------------------
  // The statements, as comprehensions over the snapshot

  /** The rows that pass keep, projected by proj, in table order. */
  function Select<R(!new), T(!new)>(rows: seq<R>, keep: R -> bool, proj: R -> T): (r: seq<T>)
    ensures |r| <= |rows|
    ensures forall x :: x in r <==> exists y :: y in rows && keep(y) && proj(y) == x
  {
    if rows == [] then []
    else
      var rest := Select(rows[1..], keep, proj);
      assert forall y :: y in rows <==> y == rows[0] || y in rows[1..];
      (if keep(rows[0]) then [proj(rows[0])] else []) + rest
  }

  function First<T>(s: seq<T>): Option<T> {
    if s == [] then None else Some(s[0])
  }

  /** SUBTAG_IDS: the ids of the tags whose category is parent. */
  function SubtagIds(db: Db, parent: int): set<int> {
    set t | t in db.tags && t.category == parent :: t.id
  }

  /** SUBTAG_NAMES: the names of the tags whose category is parent. */
  function SubtagNames(db: Db, parent: int): seq<string> {
    Select(db.tags, (t: Tag) => t.category == parent, (t: Tag) => t.name)
  }

  /** TAG_NAMES: the name of every tag. */
  function AllTagNames(db: Db): seq<string> {
    Select(db.tags, (t: Tag) => true, (t: Tag) => t.name)
  }

  /** TAG_ID: the id of the first tag with this name, if any. */
  function TagId(tags: seq<Tag>, name: string): (r: Option<int>)
    ensures r.None? <==> forall t | t in tags :: t.name != name
    ensures r.Some? ==> exists t | t in tags :: t.name == name && t.id == r.value
  {
    if tags == [] then None
    else if tags[0].name == name then Some(tags[0].id)
    else TagId(tags[1..], name)
  }

  /** The photos a photo_tags row joins with: `photos p ON p.id = pt.photo_id`. */
  function PhotosWithId(db: Db, id: int): seq<Photo> {
    Select(db.photos, (p: Photo) => p.id == id, (p: Photo) => p)
  }

  /** `photo_tags pt LEFT JOIN photos p ON p.id = pt.photo_id` over the
      given rows of photo_tags, in their order. */
  function JoinPhotos(db: Db, rows: seq<PhotoTag>): (r: seq<Photo>)
    ensures forall p :: p in r <==> p in db.photos && exists row :: row in rows && row.photo == p.id
  {
    if rows == [] then []
    else
      assert forall y :: y in rows <==> y == rows[0] || y in rows[1..];
      PhotosWithId(db, rows[0].photo) + JoinPhotos(db, rows[1..])
  }

  /** The photo_tags rows of tag whose photo is not excluded. */
  function TagRows(db: Db, tag: int, excluded: set<int>): seq<PhotoTag> {
    Select(db.photoTags, (r: PhotoTag) => r.tag == tag && r.photo !in excluded, (r: PhotoTag) => r)
  }

  /** The sub-query of TAG_PHOTOS: the photos assigned to a tag in tags. */
  function TaggedWithin(db: Db, tags: set<int>): set<int> {
    set r | r in db.photoTags && r.tag in tags :: r.photo
  }

  /** LEAF_PHOTOS: the photos assigned to tag. */
  function LeafPhotos(db: Db, tag: int): seq<Photo> {
    JoinPhotos(db, TagRows(db, tag, {}))
  }

  /** TAG_PHOTOS, its IN list holding children: the photos assigned to tag
      and to none of children. */
  function TagPhotos(db: Db, tag: int, children: set<int>): seq<Photo> {
    JoinPhotos(db, TagRows(db, tag, TaggedWithin(db, children)))
  }

  /** FILE_SQL: the first photo named name that is assigned to tag. A tag
      that was not found reaches the statement as the text 'None', which no
      tag_id equals. */
  function FileRow(db: Db, tag: Option<int>, name: string): Option<Photo> {
    match tag
    case None => None
    case Some(t) => First(Select(LeafPhotos(db, t), (p: Photo) => p.filename == name, (p: Photo) => p))
  }

  /** `[file[0] for file in files]`: the file names of the rows. */
  function Filenames(rows: seq<Photo>): (r: seq<string>)
    ensures |r| == |rows|
    ensures forall i :: 0 <= i < |rows| ==> r[i] == rows[i].filename
    ensures forall f :: f in r <==> exists p | p in rows :: p.filename == f
  {
    seq(|rows|, i requires 0 <= i < |rows| => rows[i].filename)
  }

  // ---------------------------------------------------------------------
  // What the statements return

  /** TAG_ID returns the id of the first tag that has the name. */
  lemma {:induction false} TagIdFirst(tags: seq<Tag>, name: string, i: nat)
    requires i < |tags| && tags[i].name == name
    requires forall j :: 0 <= j < i ==> tags[j].name != name
    ensures TagId(tags, name) == Some(tags[i].id)
  {
    if i > 0 {
      TagIdFirst(tags[1..], name, i - 1);
    }
  }

  lemma {:induction false} LeafPhotosMembers(db: Db, tag: int, p: Photo)
    ensures p in LeafPhotos(db, tag) <==> p in db.photos && PhotoTag(p.id, tag) in db.photoTags
  {
    if p in db.photos && PhotoTag(p.id, tag) in db.photoTags {
      assert PhotoTag(p.id, tag) in TagRows(db, tag, {});
    }
  }

  lemma {:induction false} TaggedWithinMembers(db: Db, tags: set<int>, id: int)
    ensures id !in TaggedWithin(db, tags) <==> forall d | d in tags :: PhotoTag(id, d) !in db.photoTags
  {
    if id in TaggedWithin(db, tags) {
      var r :| r in db.photoTags && r.tag in tags && r.photo == id;
      assert r == PhotoTag(id, r.tag);
    }
  }

  lemma {:induction false} TagPhotosMembers(db: Db, tag: int, children: set<int>, p: Photo)
    ensures p in TagPhotos(db, tag, children) <==>
      && p in db.photos
      && PhotoTag(p.id, tag) in db.photoTags
      && forall d | d in children :: PhotoTag(p.id, d) !in db.photoTags
  {
    TaggedWithinMembers(db, children, p.id);
    var ex := TaggedWithin(db, children);
    if p in db.photos && PhotoTag(p.id, tag) in db.photoTags && p.id !in ex {
      assert PhotoTag(p.id, tag) in TagRows(db, tag, ex);
    }
  }

  /** FILE_SQL finds a row exactly when a photo of that name is assigned to
      the tag, and the row it finds is such a photo. */
  lemma {:induction false} FileRowFound(db: Db, tag: int, name: string)
    ensures FileRow(db, Some(tag), name).Some? <==>
      exists p | p in db.photos :: p.filename == name && PhotoTag(p.id, tag) in db.photoTags
    ensures FileRow(db, Some(tag), name).Some? ==>
      var p := FileRow(db, Some(tag), name).value;
      p in db.photos && p.filename == name && PhotoTag(p.id, tag) in db.photoTags
  {
    var named := Select(LeafPhotos(db, tag), (p: Photo) => p.filename == name, (p: Photo) => p);
    forall p | p in db.photos && p.filename == name && PhotoTag(p.id, tag) in db.photoTags
      ensures p in named
    {
      LeafPhotosMembers(db, tag, p);
    }
    if named != [] {
      assert named[0] in named;
      LeafPhotosMembers(db, tag, named[0]);
    }
  }

  // ---------------------------------------------------------------------
  // The hierarchy

  /** Following n category links up from id: Some(id) for n = 0, None once
      an id is reached that is no tag's. */
  function Up(tags: seq<Tag>, id: int, n: nat): Option<int>
    decreases n
  {
    if n == 0 then Some(id)
    else match ParentOf(tags, id)
      case None => None
      case Some(p) => Up(tags, p, n - 1)
  }

  /** d lies strictly below a in the hierarchy. */
  ghost predicate Descends(db: Db, d: int, a: int) {
    exists n: nat :: 1 <= n && Up(db.tags, d, n) == Some(a)
  }

  lemma {:induction false} UpStep(tags: seq<Tag>, d: int, n: nat, x: int, y: int)
    requires Up(tags, d, n) == Some(x) && ParentOf(tags, x) == Some(y)
    ensures Up(tags, d, n + 1) == Some(y)
    decreases n
  {
    if n > 0 {
      var q := ParentOf(tags, d).value;
      UpStep(tags, q, n - 1, x, y);
    }
  }

  lemma {:induction false} UpSplit(tags: seq<Tag>, d: int, n: nat, a: int) returns (x: int)
    requires n >= 1 && Up(tags, d, n) == Some(a)
    ensures Up(tags, d, n - 1) == Some(x) && ParentOf(tags, x) == Some(a)
    decreases n
  {
    var q := ParentOf(tags, d).value;
    if n == 1 {
      x := d;
    } else {
      x := UpSplit(tags, q, n - 1, a);
    }
  }

  lemma {:induction false} UpAdd(tags: seq<Tag>, x: int, n: nat, y: int, m: nat)
    requires Up(tags, x, n) == Some(y)
    ensures Up(tags, x, n + m) == Up(tags, y, m)
    decreases n
  {
    if n > 0 {
      UpAdd(tags, ParentOf(tags, x).value, n - 1, y, m);
    }
  }

  /** Climbing n links loses exactly n levels of depth. */
  lemma {:induction false} DepthAlongUp(db: Db, x: int, n: nat, y: int)
    requires Acyclic(db) && Up(db.tags, x, n) == Some(y)
    ensures Depth(db.tags, x, |db.tags|).Some? && Depth(db.tags, y, |db.tags|).Some?
    ensures Depth(db.tags, y, |db.tags|).value + n == Depth(db.tags, x, |db.tags|).value
    decreases n
  {
    DepthDefined(db, x);
    DepthDefined(db, y);
    if n > 0 {
      var q := ParentOf(db.tags, x).value;
      DepthStep(db, x, q);
      DepthAlongUp(db, q, n - 1, y);
    }
  }

  lemma {:induction false} ChildRank(db: Db, p: int, c: int)
    requires Forest(db) && c in SubtagIds(db, p)
    ensures Rank(db, c) < Rank(db, p)
  {
    var t :| t in db.tags && t.category == p && t.id == c;
    ParentOfTag(db.tags, t);
    DepthStep(db, c, p);
  }

  lemma {:induction false} ChildRanks(db: Db, p: int)
    requires Forest(db)
    ensures forall c | c in SubtagIds(db, p) :: Rank(db, c) < Rank(db, p)
  {
    forall c | c in SubtagIds(db, p) ensures Rank(db, c) < Rank(db, p) {
      ChildRank(db, p, c);
    }
  }

  /** tag_childs: the ids of the tags below parent, found as its immediate
      children together with what each child's own call returns. */
  function TagChilds(db: Db, parent: int): set<int>
    requires Forest(db)
    decreases Rank(db, parent)
  {
    var kids := SubtagIds(db, parent);
    ChildRanks(db, parent);
    kids + set c, d | c in kids && d in TagChilds(db, c) :: d
  }

  /** What the calls tag_childs(k) return, over the ks already asked. */
  function Below(db: Db, ks: set<int>): set<int>
    requires Forest(db)
  {
    set k, d | k in ks && d in TagChilds(db, k) :: d
  }

  /** Asking one more k adds what tag_childs(k) returns. */
  lemma {:induction false} BelowAdd(db: Db, ks: set<int>, k: int)
    requires Forest(db)
    ensures Below(db, ks + {k}) == Below(db, ks) + TagChilds(db, k)
  {
    forall d | d in Below(db, ks + {k}) ensures d in Below(db, ks) + TagChilds(db, k) {
      var j :| j in ks + {k} && d in TagChilds(db, j);
    }
  }

  /** tag_childs(p) is p's immediate children together with what the calls
      on all of them return. */
  lemma {:induction false} TagChildsSplit(db: Db, p: int)
    requires Forest(db)
    ensures SubtagIds(db, p) + Below(db, SubtagIds(db, p)) == TagChilds(db, p)
  {
  }

  /** One more link up from an immediate child of p reaches p. */
  lemma {:induction false} UpToParent(db: Db, p: int, c: int, d: int, k: nat) returns (n: nat)
    requires Forest(db) && c in SubtagIds(db, p) && Up(db.tags, d, k) == Some(c)
    ensures n == k + 1 && Up(db.tags, d, n) == Some(p)
  {
    var t :| t in db.tags && t.category == p && t.id == c;
    ParentOfTag(db.tags, t);
    UpStep(db.tags, d, k, c, p);
    n := k + 1;
  }

  /** A member of tag_childs(p) that is not an immediate child came from
      the call on one of them. */
  lemma {:induction false} ChildsVia(db: Db, p: int, d: int) returns (c: int)
    requires Forest(db) && d in TagChilds(db, p) && d !in SubtagIds(db, p)
    ensures c in SubtagIds(db, p) && d in TagChilds(db, c)
  {
    c :| c in SubtagIds(db, p) && d in TagChilds(db, c);
  }

  /** A tag in tag_childs(p) reaches p by climbing n >= 1 links. */
  lemma {:induction false} ChildsDescend(db: Db, p: int, d: int) returns (n: nat)
    requires Forest(db) && d in TagChilds(db, p)
    ensures 1 <= n && Up(db.tags, d, n) == Some(p)
    decreases Rank(db, p)
  {
    if d in SubtagIds(db, p) {
      n := UpToParent(db, p, d, d, 0);
    } else {
      var c := ChildsVia(db, p, d);
      ChildRank(db, p, c);
      var k := ChildsDescend(db, c, d);
      n := UpToParent(db, p, c, d, k);
    }
  }

  lemma {:induction false} DescendantsAreChilds(db: Db, p: int, d: int, n: nat)
    requires Forest(db) && 1 <= n && Up(db.tags, d, n) == Some(p)
    ensures d in TagChilds(db, p)
    decreases n
  {
    var x := UpSplit(db.tags, d, n, p);
    assert x in SubtagIds(db, p) by {
      var t := ParentOfRow(db.tags, x);
    }
    if n > 1 {
      DescendantsAreChilds(db, x, d, n - 1);
    }
  }

  /** tag_childs(p) holds exactly the tags strictly below p. */
  lemma {:induction false} TagChildsAreDescendants(db: Db, p: int, d: int)
    requires Forest(db)
    ensures d in TagChilds(db, p) <==> Descends(db, d, p)
  {
    if d in TagChilds(db, p) {
      var n := ChildsDescend(db, p, d);
    }
    if Descends(db, d, p) {
      var n: nat :| 1 <= n && Up(db.tags, d, n) == Some(p);
      DescendantsAreChilds(db, p, d, n);
    }
  }

  /** tag_childs(p) never holds p itself, nor any tag above p. */
  lemma {:induction false} TagChildsExcludesAncestors(db: Db, p: int, a: int)
    requires Forest(db) && (a == p || Descends(db, p, a))
    ensures a !in TagChilds(db, p)
  {
    if a in TagChilds(db, p) {
      var n := ChildsDescend(db, p, a);
      DepthAlongUp(db, a, n, p);
      if a != p {
        var m: nat :| 1 <= m && Up(db.tags, p, m) == Some(a);
        DepthAlongUp(db, p, m, a);
      }
    }
  }

  /** Being below is transitive. */
  lemma {:induction false} DescendsTransitive(db: Db, x: int, d: int, p: int)
    requires Descends(db, x, d) && Descends(db, d, p)
    ensures Descends(db, x, p)
  {
    var n: nat :| 1 <= n && Up(db.tags, x, n) == Some(d);
    var m: nat :| 1 <= m && Up(db.tags, d, m) == Some(p);
    UpAdd(db.tags, x, n, d, m);
    assert 1 <= n + m && Up(db.tags, x, n + m) == Some(p);
  }

  lemma {:induction false} NestedMember(db: Db, p: int, d: int, x: int)
    requires Forest(db) && Descends(db, d, p) && x in TagChilds(db, d)
    ensures x in TagChilds(db, p)
  {
    TagChildsAreDescendants(db, d, x);
    DescendsTransitive(db, x, d, p);
    TagChildsAreDescendants(db, p, x);
  }

  /** Below a tag under p lies a strictly smaller part of what lies under p. */
  lemma {:induction false} TagChildsNested(db: Db, p: int, d: int)
    requires Forest(db) && d in TagChilds(db, p)
    ensures TagChilds(db, d) < TagChilds(db, p)
  {
    TagChildsAreDescendants(db, p, d);
    forall x | x in TagChilds(db, d) ensures x in TagChilds(db, p) {
      NestedMember(db, p, d, x);
    }
    TagChildsExcludesAncestors(db, d, d);
  }

  /** Fewer tags lie below a tag than below any tag above it. */
  lemma {:induction false} TagChildsShrink(db: Db, p: int, d: int)
    requires Forest(db) && Descends(db, d, p)
    ensures |TagChilds(db, d)| < |TagChilds(db, p)|
  {
    TagChildsAreDescendants(db, p, d);
    TagChildsNested(db, p, d);
    ProperSubsetSmaller(TagChilds(db, d), TagChilds(db, p));
  }

  lemma {:induction false} ProperSubsetSmaller<T>(a: set<T>, b: set<T>)
    requires a < b
    ensures |a| < |b|
  {
    var x :| x in b && x !in a;
    assert b == a + (b - a);
    assert a * (b - a) == {};
    assert x in b - a;
  }
}
