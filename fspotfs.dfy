/** The FSpotFS filesystem object: a database snapshot, the `repeated`
    switch, and the memo cache every operation goes through. */
module FSpotFS {
  import opened Options
  import opened CacheKey
  import Catalog
  import Resolver
  import Paths
  import Ordering
  import Sql

  /** What a memoized call returns. */
  datatype Value =
    | Ids(ids: set<int>)
    | Names(names: seq<string>)
    | MaybeId(id: Option<int>)
    | Text(text: string)
    | Attr(stat: Resolver.Stat)
    | Code(code: int)

  /** The value a call has on the snapshot: the one its cache entry must
      hold. */
  function Eval(db: Catalog.Db, repeated: bool, c: Call): Value
    requires Catalog.Forest(db)
  {
    match c
    case TagChildsOf(p) => Ids(Catalog.TagChilds(db, p))
    case TagNamesOf(p) => Names(Resolver.TagNames(db, p))
    case EncodedTagNames => Names(Resolver.TagNames(db, None))
    case TagToIdOf(n) => MaybeId(Catalog.TagId(db.tags, n))
    case FileNamesOf(t) => Names(Resolver.FileNames(db, repeated, t))
    case EncodedFileNames => Names(Resolver.FileNames(db, repeated, None))
    case LinkPathOf(t, n) => Text(Resolver.LinkPath(db, t, n))
    case GetAttrOf(p) => Attr(Resolver.GetAttr(db, repeated, p))
    case ReadLinkOf(p) => Text(Resolver.ReadLink(db, p))
    case AccessOf(p, m) => Code(Resolver.Access(db, repeated, p, m))
    case ReadDirOf(p, _) => Names(Resolver.ReadDir(db, repeated, p))
  }

  /** The filesystem. The cache is keyed by the call itself: the source
      keys it by a string that two different link_path calls can share. */
  class Filesystem {
    const db: Catalog.Db
    const repeated: bool
    var cache: map<Call, Value>

    /** Every entry holds the value of its call. */
    ghost predicate Valid()
      reads this
    {
      && Catalog.Forest(db)
      && forall c | c in cache :: cache[c] == Eval(db, repeated, c)
    }

    /** What a memoized call leaves behind: its entry, and no entry lost;
        on a hit, nothing else changes. */
    ghost predicate Memoized(c0: map<Call, Value>, c: Call)
      reads this
    {
      && c in cache
      && c0.Keys <= cache.Keys
      && (c in c0 ==> cache == c0)
    }

    /** The source's constructor keeps the database path and the switch;
        the snapshot stands for the database at that path. */
    constructor (db: Catalog.Db, repeated: bool)
      requires Catalog.Forest(db)
      ensures Valid() && this.db == db && this.repeated == repeated
      ensures cache == map[]
    {
      this.db := db;
      this.repeated := repeated;
      cache := map[];
    }

    /** The insertion half of check-then-insert. */
    method Store(c: Call, v: Value)
      requires Valid() && v == Eval(db, repeated, c)
      modifies this
      ensures Valid() && cache == old(cache)[c := v]
    {
      cache := cache[c := v];
    }

    method TagChilds(parent: int) returns (r: set<int>)
      requires Valid()
      modifies this
      ensures Valid() && r == Catalog.TagChilds(db, parent)
      ensures Memoized(old(cache), TagChildsOf(parent))
      decreases Catalog.Rank(db, parent)
    {
      var c := TagChildsOf(parent);
      assert Eval(db, repeated, c) == Ids(Catalog.TagChilds(db, parent));
      if c in cache {
        r := cache[c].ids;
      } else {
        var kids := Catalog.SubtagIds(db, parent);
        Catalog.ChildRanks(db, parent);
        var below: set<int> := {};
        var todo := kids;
        while todo != {}
          invariant Valid() && todo <= kids
          invariant below == Catalog.Below(db, kids - todo)
          invariant old(cache).Keys <= cache.Keys
          decreases todo
        {
          var k :| k in todo;
          var sub := TagChilds(k);
          Catalog.BelowAdd(db, kids - todo, k);
          assert kids - (todo - {k}) == kids - todo + {k};
          below := below + sub;
          todo := todo - {k};
        }
        assert kids - todo == kids;
        Catalog.TagChildsSplit(db, parent);
        r := kids + below;
        Store(c, Ids(r));
      }
    }

    method TagNames(parent: Option<int>) returns (r: seq<string>)
      requires Valid()
      modifies this
      ensures Valid() && r == Resolver.TagNames(db, parent)
      ensures Memoized(old(cache), TagNamesOf(parent))
      ensures TagNamesOf(parent) !in old(cache) ==> cache == old(cache)[TagNamesOf(parent) := Names(r)]
    {
      var c := TagNamesOf(parent);
      assert Eval(db, repeated, c) == Names(Resolver.TagNames(db, parent));
      if c !in cache {
        var names := match parent
          case Some(p) => Catalog.SubtagNames(db, p)
          case None => Catalog.AllTagNames(db);
        Store(c, Names(names));
      }
      r := cache[c].names;
    }

    method EncodedTagNames() returns (r: seq<string>)
      requires Valid()
      modifies this
      ensures Valid() && r == Resolver.TagNames(db, None)
      ensures Memoized(old(cache), Call.EncodedTagNames)
    {
      var c := Call.EncodedTagNames;
      assert Eval(db, repeated, c) == Names(Resolver.TagNames(db, None));
      if c !in cache {
        var names := TagNames(None);
        Store(c, Names(names));
      }
      r := cache[c].names;
    }

    method TagToId(name: string) returns (r: Option<int>)
      requires Valid()
      modifies this
      ensures Valid() && r == Catalog.TagId(db.tags, name)
      ensures Memoized(old(cache), TagToIdOf(name))
      ensures TagToIdOf(name) !in old(cache) ==> cache == old(cache)[TagToIdOf(name) := MaybeId(r)]
    {
      var c := TagToIdOf(name);
      assert Eval(db, repeated, c) == MaybeId(Catalog.TagId(db.tags, name));
      if c !in cache {
        Store(c, MaybeId(Catalog.TagId(db.tags, name)));
      }
      r := cache[c].id;
    }

    method FileNames(tag: Option<int>) returns (r: seq<string>)
      requires Valid()
      modifies this
      ensures Valid() && r == Resolver.FileNames(db, repeated, tag)
      ensures Memoized(old(cache), FileNamesOf(tag))
    {
      var c := FileNamesOf(tag);
      assert Eval(db, repeated, c) == Names(Resolver.FileNames(db, repeated, tag));
      if c !in cache {
        var rows: seq<Catalog.Photo>;
        if tag.Some? {
          if !repeated {
            var children := TagChilds(tag.value);
            if children != {} {
              rows := Catalog.TagPhotos(db, tag.value, children);
            } else {
              rows := Catalog.LeafPhotos(db, tag.value);
            }
          } else {
            rows := Catalog.LeafPhotos(db, tag.value);
          }
        } else {
          rows := db.photos;
        }
        Store(c, Names(Catalog.Filenames(rows)));
      }
      r := cache[c].names;
    }

    method EncodedFileNames() returns (r: seq<string>)
      requires Valid()
      modifies this
      ensures Valid() && r == Resolver.FileNames(db, repeated, None)
      ensures Memoized(old(cache), Call.EncodedFileNames)
    {
      var c := Call.EncodedFileNames;
      assert Eval(db, repeated, c) == Names(Resolver.FileNames(db, repeated, None));
      if c !in cache {
        var names := FileNames(None);
        Store(c, Names(names));
      }
      r := cache[c].names;
    }

    method LinkPath(tag: string, name: string) returns (r: string)
      requires Valid()
      modifies this
      ensures Valid() && r == Resolver.LinkPath(db, tag, name)
      ensures Memoized(old(cache), LinkPathOf(tag, name))
    {
      var c := LinkPathOf(tag, name);
      assert Eval(db, repeated, c) == Text(Resolver.LinkPath(db, tag, name));
      if c in cache {
        r := cache[c].text;
      } else {
        var id := TagToId(tag);
        r := Resolver.RowTarget(Catalog.FileRow(db, id, name));
        Store(c, Text(r));
      }
    }

    /** is_dir, which the source does not memoize. */
    method IsDir(path: string) returns (b: bool)
      requires Valid()
      modifies this
      ensures Valid() && b == Resolver.IsDir(db, path)
      ensures old(cache).Keys <= cache.Keys
    {
      if path == "." || path == ".." || path == "/" {
        b := true;
      } else {
        var names := EncodedTagNames();
        b := Paths.Basename(path) in names;
      }
    }

    /** is_file, which the source does not memoize. */
    method IsFile(path: string) returns (b: bool)
      requires Valid()
      modifies this
      ensures Valid() && b == Resolver.IsFile(db, path)
      ensures old(cache).Keys <= cache.Keys
    {
      var names := EncodedFileNames();
      b := Paths.Basename(path) in names;
    }

    /** Whether basename(path) is among the file names of the tag its
        directory names: the check getattr and access share. */
    method Listed(path: string) returns (b: bool)
      requires Valid()
      modifies this
      ensures Valid() && b == Resolver.Listed(db, repeated, path)
      ensures old(cache).Keys <= cache.Keys
    {
      var id := TagToId(Resolver.FolderOf(path));
      var names := FileNames(id);
      b := Paths.Basename(path) in names;
    }

    method GetAttr(path: string) returns (r: Resolver.Stat)
      requires Valid()
      modifies this
      ensures Valid() && r == Resolver.GetAttr(db, repeated, path)
      ensures Memoized(old(cache), GetAttrOf(path))
    {
      var c := GetAttrOf(path);
      assert Eval(db, repeated, c) == Attr(Resolver.GetAttr(db, repeated, path));
      if c !in cache {
        var v: Resolver.Stat;
        var dir := IsDir(path);
        if dir {
          v := Resolver.DirStat;
        } else {
          v := Resolver.Errno(-Resolver.ENOENT);
          var file := IsFile(path);
          if file {
            var listed := Listed(path);
            if listed {
              var target := LinkPath(Resolver.FolderOf(path), Paths.Basename(path));
              v := Resolver.LinkStat(target);
            }
          }
        }
        Store(c, Attr(v));
      }
      r := cache[c].stat;
    }

    method ReadLink(path: string) returns (r: string)
      requires Valid()
      modifies this
      ensures Valid() && r == Resolver.ReadLink(db, path)
      ensures Memoized(old(cache), ReadLinkOf(path))
    {
      var c := ReadLinkOf(path);
      assert Eval(db, repeated, c) == Text(Resolver.ReadLink(db, path));
      if c !in cache {
        var folder, name := Resolver.FolderOf(path), Paths.Basename(path);
        var target := LinkPath(folder, name);
        Store(c, Text(target));
      }
      r := cache[c].text;
    }

    method Access(path: string, mode: int) returns (r: int)
      requires Valid()
      modifies this
      ensures Valid() && r == Resolver.Access(db, repeated, path, mode)
      ensures Memoized(old(cache), AccessOf(path, mode))
    {
      var c := AccessOf(path, mode);
      assert Eval(db, repeated, c) == Code(Resolver.Access(db, repeated, path, mode));
      if c !in cache {
        var granted := IsDir(path);
        if !granted {
          var file := IsFile(path);
          if file {
            granted := Listed(path);
          }
        }
        Store(c, Code(if granted then 0 else -Resolver.EINVAL));
      }
      r := cache[c].code;
    }

    /** A list built from the names and sorted in place. */
    static method SortedList(names: seq<string>) returns (r: seq<string>)
      ensures r == Ordering.Sort(names)
    {
      var a := new string[|names|](i requires 0 <= i < |names| => names[i]);
      assert a[..] == names;
      Ordering.SortInPlace(a);
      r := a[..];
    }

    method ReadDir(path: string, offset: int) returns (r: seq<string>)
      requires Valid()
      modifies this
      ensures Valid() && r == Resolver.ReadDir(db, repeated, path)
      ensures Memoized(old(cache), ReadDirOf(path, offset))
    {
      var c := ReadDirOf(path, offset);
      assert Eval(db, repeated, c) == Names(Resolver.ReadDir(db, repeated, path));
      if c !in cache {
        var parent: Option<int>;
        if path == "/" {
          parent := Some(0);
        } else {
          parent := TagToId(Paths.Basename(path));
        }
        var tagNames := TagNames(parent);
        var dirs := SortedList(tagNames);
        var fileNames := FileNames(parent);
        var files := SortedList(fileNames);
        Store(c, Names([".", ".."] + dirs + files));
      }
      r := cache[c].names;
    }
  }

  /** The source's wrapper: look the call up under its string key, and on
      a miss store v, the value the call computes. */
  function SourceCached(cache: map<string, Value>, c: Call, v: Value): (r: (map<string, Value>, Value))
    ensures KeyOf(c) in r.0 && r.1 == r.0[KeyOf(c)]
    ensures KeyOf(c) in cache ==> r == (cache, cache[KeyOf(c)])
    ensures KeyOf(c) !in cache ==> r == (cache[KeyOf(c) := v], v)
  {
    var key := KeyOf(c);
    var stored := if key !in cache then cache[key := v] else cache;
    (stored, stored[key])
  }

  /** A snapshot with a tag named "a_b" holding a photo "c" and a tag named
      "a" holding a photo "b_c". */
  function CollidingDb(): Catalog.Db {
    Catalog.Db(
      [Catalog.Tag(1, "a_b", 0), Catalog.Tag(2, "a", 0)],
      [Catalog.Photo(10, "c", "file:///x"), Catalog.Photo(11, "b_c", "file:///y")],
      [Catalog.PhotoTag(10, 1), Catalog.PhotoTag(11, 2)])
  }

  lemma {:induction false} CollidingRows()
    ensures Catalog.FileRow(CollidingDb(), Some(1), "c") == Some(CollidingDb().photos[0])
    ensures Catalog.FileRow(CollidingDb(), Some(2), "b_c") == Some(CollidingDb().photos[1])
  {
    var db := CollidingDb();
    assert Catalog.TagRows(db, 1, {}) == [db.photoTags[0]];
    assert Catalog.TagRows(db, 2, {}) == [db.photoTags[1]];
    assert Catalog.PhotosWithId(db, 10) == [db.photos[0]];
    assert Catalog.PhotosWithId(db, 11) == [db.photos[1]];
    assert Catalog.LeafPhotos(db, 1) == [db.photos[0]];
    assert Catalog.LeafPhotos(db, 2) == [db.photos[1]];
  }

  lemma {:induction false} CollidingTagIds()
    ensures Catalog.TagId(CollidingDb().tags, "a_b") == Some(1)
    ensures Catalog.TagId(CollidingDb().tags, "a") == Some(2)
  {
    var tags := CollidingDb().tags;
    assert tags[0].name == "a_b" && tags[1].name == "a";
    Catalog.TagIdFirst(tags, "a_b", 0);
    Catalog.TagIdFirst(tags, "a", 1);
  }

  /** The target of a photo stored under "file://" + dir, with no '%' in
      the joined path. */
  lemma {:induction false} LocalTarget(db: Catalog.Db, tag: string, p: Catalog.Photo, dir: string)
    requires Catalog.FileRow(db, Catalog.TagId(db.tags, tag), p.filename) == Some(p)
    requires p.baseUri == "file://" + dir && !Sql.Occurs("file://", dir)
    requires '%' !in Paths.Join(dir, p.filename)
    ensures Resolver.LinkPath(db, tag, p.filename) == Paths.Join(dir, p.filename)
  {
    Sql.StripScheme(dir);
  }

  /** The concrete facts about the snapshot's two photos that their link
      targets rest on. */
  lemma {:induction false} CollidingPhotos()
    ensures var p := CollidingDb().photos;
            && p[0].filename == "c" && p[0].baseUri == "file://" + "/x"
            && p[1].filename == "b_c" && p[1].baseUri == "file://" + "/y"
    ensures !Sql.Occurs("file://", "/x") && !Sql.Occurs("file://", "/y")
    ensures Paths.Join("/x", "c") == "/x/c" && Paths.Join("/y", "b_c") == "/y/b_c"
    ensures '%' !in Paths.Join("/x", "c") && '%' !in Paths.Join("/y", "b_c")
  { }

  /** Looking each name up finds that photo in that tag. */
  lemma {:induction false} CollidingLookups()
    ensures var db := CollidingDb();
            && Catalog.FileRow(db, Catalog.TagId(db.tags, "a_b"), "c") == Some(db.photos[0])
            && Catalog.FileRow(db, Catalog.TagId(db.tags, "a"), "b_c") == Some(db.photos[1])
  {
    CollidingTagIds();
    CollidingRows();
  }

  /** The two link targets in that snapshot. */
  lemma {:induction false} CollidingLinks()
    ensures Resolver.LinkPath(CollidingDb(), "a_b", "c") == "/x/c"
    ensures Resolver.LinkPath(CollidingDb(), "a", "b_c") == "/y/b_c"
  {
    CollidingPhotos();
    CollidingLookups();
    LocalTarget(CollidingDb(), "a_b", CollidingDb().photos[0], "/x");
    LocalTarget(CollidingDb(), "a", CollidingDb().photos[1], "/y");
  }

  /** After link_path("a_b", "c"), the source's cache answers
      link_path("a", "b_c") with the first photo's target. */
  lemma {:induction false} SourceCacheServesWrongTarget()
    ensures var db := CollidingDb();
            var first := LinkPathOf("a_b", "c");
            var second := LinkPathOf("a", "b_c");
            var (cache1, _) := SourceCached(map[], first, Text(Resolver.LinkPath(db, "a_b", "c")));
            var (_, answer) := SourceCached(cache1, second, Text(Resolver.LinkPath(db, "a", "b_c")));
            answer == Text("/x/c") && answer != Text(Resolver.LinkPath(db, "a", "b_c"))
  {
    LinkPathKeysCollide();
    CollidingLinks();
  }
}
