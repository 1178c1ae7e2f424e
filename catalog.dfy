/** Catalog, LocalCatalog and Catalogs: where the video files come from and how
    they are split into shows and movies. */
module Catalogs {
  import opened Wrappers
  import opened RubyStrings
  import opened Patterns
  import opened Sequences
  import opened ShowEpisode
  import opened Media

  /** What `Dir.foreach` yields for each directory that exists, in enumeration order. */
  type Listing = map<string, seq<string>>

  /** `filename[0] == '.'`: a hidden entry (also "." and ".."). */
  predicate Hidden(entry: string)
  {
    |entry| > 0 && entry[0] == '.'
  }

  /** `filename[-4, 4]`: the last four characters, nil for a shorter name. */
  function LastFour(entry: string): Option<string>
  {
    if |entry| >= 4 then Some(entry[|entry| - 4..]) else None
  }

  /** An entry LocalCatalog#files keeps. */
  predicate IsVideoEntry(entry: string)
  {
    !Hidden(entry) && (LastFour(entry) == Some(".mp4") || LastFour(entry) == Some(".m4v"))
  }

  /** The files LocalCatalog#files builds from a listing of path. */
  function VideoFiles(path: string, entries: seq<string>): seq<string>
  {
    if entries == [] then []
    else
      var e := entries[|entries| - 1];
      VideoFiles(path, entries[..|entries| - 1]) + if IsVideoEntry(e) then [path + e] else []
  }

  /** The block of Catalog#shows' delete_if: true of a file that is not a show. */
  predicate IsMovieName(file: string)
  {
    !HasToken(file)
  }

  /** The catalog classes `Catalog.type_instance` can reach: LocalCatalog, and
      the base class Catalog itself, which has no `files` method. */
  datatype Catalog = LocalCatalog(path: string) | BaseCatalog(path: string)
  {
    /** `files`: the video entries of the catalog's directory, in listing order,
        each prefixed with the catalog path by plain concatenation. */
    method Files(listing: Listing) returns (r: Result<seq<string>>)
      ensures r == FilesOf(this, listing)
    {
      if BaseCatalog? {
        return Err(UndefinedFiles);
      }
      if path !in listing {
        return Err(NoSuchDirectory(path));
      }
      var entries := listing[path];
      var movs: seq<string> := [];
      var i := 0;
      while i < |entries|
        invariant 0 <= i <= |entries|
        invariant movs == VideoFiles(path, entries[..i])
      {
        var filename := entries[i];
        assert entries[..i + 1][..i] == entries[..i];
        i := i + 1;
        if Hidden(filename) {
          continue;
        }
        if LastFour(filename) != Some(".mp4") && LastFour(filename) != Some(".m4v") {
          continue;
        }
        movs := movs + [path + filename];
      }
      assert entries[..|entries|] == entries;
      r := Ok(movs);
    }

    /** Catalog#shows: the files holding a token, pruned in place from a fresh
        list, each made into a Show. */
    method Shows(listing: Listing) returns (r: Result<seq<Show>>)
      ensures r == ShowsOf(this, listing)
    {
      var files := Files(listing);
      if files.Err? {
        return Err(files.error);
      }
      var fs := files.value;
      var a := new string[|fs|](i requires 0 <= i < |fs| => fs[i]);
      assert a[..] == fs;
      var n := DeleteIf(a, IsMovieName);
      r := MapResults(a[..n], NewShow);
    }

    /** Catalog#movies: the files without a token, pruned in place from a
        fresh list, each made into a Movie. */
    method Movies(listing: Listing) returns (r: Result<seq<Movie>>)
      ensures r == MoviesOf(this, listing)
    {
      var files := Files(listing);
      if files.Err? {
        return Err(files.error);
      }
      var fs := files.value;
      var a := new string[|fs|](i requires 0 <= i < |fs| => fs[i]);
      assert a[..] == fs;
      var n := DeleteIf(a, HasToken);
      r := Ok(MakeMovies(a[..n]));
    }
  }

  function FilesOf(c: Catalog, listing: Listing): Result<seq<string>>
  {
    match c
    case BaseCatalog(_) => Err(UndefinedFiles)
    case LocalCatalog(path) =>
      if path in listing then Ok(VideoFiles(path, listing[path])) else Err(NoSuchDirectory(path))
  }

  function MakeMovies(files: seq<string>): seq<Movie>
  {
    seq(|files|, k requires 0 <= k < |files| => Movie(files[k]))
  }

  function ShowsOf(c: Catalog, listing: Listing): Result<seq<Show>>
  {
    match FilesOf(c, listing)
    case Err(e) => Err(e)
    case Ok(files) => MapResults(Reject(files, IsMovieName), NewShow)
  }

  /** The block of Catalogs.shows' map: a catalog's shows. */
  function ShowsIn(listing: Listing): Catalog -> Result<seq<Show>>
  {
    c => ShowsOf(c, listing)
  }

  /** The block of Catalogs.movies' map: a catalog's movies. */
  function MoviesIn(listing: Listing): Catalog -> Result<seq<Movie>>
  {
    c => MoviesOf(c, listing)
  }

  function MoviesOf(c: Catalog, listing: Listing): Result<seq<Movie>>
  {
    match FilesOf(c, listing)
    case Err(e) => Err(e)
    case Ok(files) => Ok(MakeMovies(Reject(files, HasToken)))
  }

  function ShowPaths(shows: seq<Show>): seq<string>
  {
    seq(|shows|, k requires 0 <= k < |shows| => shows[k].path)
  }

  function MoviePaths(movies: seq<Movie>): seq<string>
  {
    seq(|movies|, k requires 0 <= k < |movies| => movies[k].path)
  }

  /** `Catalog.type_instance`: the class named by the capitalized tag followed by "Catalog". */
  function TypeInstance(tag: string, path: string): (r: Result<Catalog>)
    ensures r.Ok? ==> r.value.path == path
  {
    var name := Capitalize(tag) + "Catalog";
    if name == "LocalCatalog" then Ok(LocalCatalog(path))
    else if name == "Catalog" then Ok(BaseCatalog(path))
    else Err(UnknownConstant(name))
  }

  /** The tag is "local" in any mix of upper and lower case. */
  predicate IsLocalTag(tag: string)
  {
    |tag| == 5 && forall k :: 0 <= k < 5 ==> Downcase(tag[k]) == "local"[k]
  }

  /** "local" in any case gives a LocalCatalog, the empty tag the base Catalog,
      and every other tag fails. */
  lemma TypeInstanceCases(tag: string, path: string)
    ensures TypeInstance(tag, path) == Ok(LocalCatalog(path)) <==> IsLocalTag(tag)
    ensures TypeInstance(tag, path) == Ok(BaseCatalog(path)) <==> tag == ""
    ensures TypeInstance(tag, path).Err? <==> tag != "" && !IsLocalTag(tag)
  {
    var cap := Capitalize(tag);
    var name := cap + "Catalog";
    assert name == "LocalCatalog" <==> cap == "Local" by {
      if name == "LocalCatalog" {
        assert cap == name[..|cap|];
      }
    }
    assert name == "Catalog" <==> cap == "";
    if IsLocalTag(tag) {
      forall k | 0 <= k < 5 ensures cap[k] == "Local"[k] {
        CaseFold(tag[k]);
      }
    }
    if cap == "Local" {
      forall k | 0 <= k < 5 ensures Downcase(tag[k]) == "local"[k] {
        assert cap[k] == "Local"[k];
        CaseFold(tag[k]);
      }
    }
  }

  /** The ASCII case mappings agree on the letters of "local". */
  lemma CaseFold(c: char)
    ensures Upcase(c) == 'L' <==> Downcase(c) == 'l'
    ensures Downcase(c) == 'o' <==> c == 'o' || c == 'O'
    ensures Downcase(c) == 'c' <==> c == 'c' || c == 'C'
    ensures Downcase(c) == 'a' <==> c == 'a' || c == 'A'
    ensures Downcase(c) == 'l' <==> c == 'l' || c == 'L'
  {
  }

  /** LocalCatalog#files keeps exactly the video entries, each prefixed with the path. */
  lemma {:induction false} VideoFilesMembers(path: string, entries: seq<string>, f: string)
    ensures f in VideoFiles(path, entries) <==> exists e :: e in entries && IsVideoEntry(e) && f == path + e
  {
    if entries != [] {
      var init := entries[..|entries| - 1];
      VideoFilesMembers(path, init, f);
      assert entries == init + [entries[|entries| - 1]];
    }
  }

  /** LocalCatalog#files keeps the enumeration order. */
  lemma {:induction false} VideoFilesAppend(path: string, a: seq<string>, b: seq<string>)
    ensures VideoFiles(path, a + b) == VideoFiles(path, a) + VideoFiles(path, b)
    decreases |b|
  {
    if b == [] {
      assert a + b == a;
    } else {
      var b' := b[..|b| - 1];
      assert (a + b)[..|a + b| - 1] == a + b';
      VideoFilesAppend(path, a, b');
    }
  }

  /** shows and movies over one catalog split its files in two: every file is
      in exactly one part, by whether it holds a token, and each part keeps
      the files' order. */
  lemma CatalogPartition(c: Catalog, listing: Listing)
    requires FilesOf(c, listing).Ok? && ShowsOf(c, listing).Ok?
    ensures MoviesOf(c, listing).Ok?
    ensures var files := FilesOf(c, listing).value;
      var shows := ShowPaths(ShowsOf(c, listing).value);
      var movies := MoviePaths(MoviesOf(c, listing).value);
      && shows == Reject(files, IsMovieName)
      && movies == Reject(files, HasToken)
      && multiset(shows) + multiset(movies) == multiset(files)
      && (forall f :: f in files ==> (f in shows <==> HasToken(f)) && (f in movies <==> !HasToken(f)))
  {
    var files := FilesOf(c, listing).value;
    var kept := Reject(files, IsMovieName);
    var shows := ShowsOf(c, listing).value;
    assert ShowPaths(shows) == kept;
    assert MoviePaths(MoviesOf(c, listing).value) == Reject(files, HasToken);
    RejectPartition(files, IsMovieName, HasToken);
    forall f | f in files
      ensures (f in kept <==> HasToken(f)) && (f in Reject(files, HasToken) <==> !HasToken(f))
    {
      RejectMembers(files, IsMovieName, f);
      RejectMembers(files, HasToken, f);
    }
  }

  /** A token in a directory path ending with a slash plus an entry lies
      wholly in the directory or wholly in the entry: no token character is a slash. */
  lemma TokenInEntry(dir: string, entry: string)
    requires dir != [] && dir[|dir| - 1] == '/'
    requires HasToken(dir + entry) && !HasToken(dir)
    ensures HasToken(entry)
  {
    var s := dir + entry;
    var i := Find(s, Token).value;
    TokenAt(s, i);
    if i + 6 <= |dir| {
      assert MatchesAt(dir, i, Token) by {
        forall k | 0 <= k < 6 ensures AtomMatches(Token[k], dir[i + k]) {
          assert s[i + k] == dir[i + k];
        }
      }
      assert false;
    } else if i < |dir| {
      assert false;
    } else {
      var j := i - |dir|;
      assert MatchesAt(entry, j, Token) by {
        forall k | 0 <= k < 6 ensures AtomMatches(Token[k], entry[j + k]) {
          assert s[i + k] == entry[j + k];
        }
      }
    }
  }

  /** When the directory of a local catalog holds a token, every video file in
      it passes `show?`, yet Show.new looks only at the file name: an entry
      without a token makes Catalog#shows raise. */
  lemma TokenInDirectoryFails(path: string, entry: string)
    requires path != [] && path[|path| - 1] == '/' && HasToken(path)
    requires IsVideoEntry(entry) && '/' !in entry && !HasToken(entry)
    ensures ShowsOf(LocalCatalog(path), map[path := [entry]]) == Err(MissingToken)
  {
    var f := path + entry;
    assert VideoFiles(path, [entry]) == [f];
    var i := Find(path, Token).value;
    assert MatchesAt(f, i, Token) by {
      forall k | 0 <= k < 6 ensures AtomMatches(Token[k], f[i + k]) {
        assert f[i + k] == path[i + k];
      }
    }
    assert Reject([f], IsMovieName) == [f];
    FileNameOfEntry(path, entry);
    assert NewShow(f) == Err(MissingToken);
  }

  /** With a directory path that ends with a slash and holds no token, and
      entries without slashes (what a directory listing yields), Catalog#shows
      succeeds and each show is identified by its own entry. */
  lemma LocalShowsSucceed(path: string, listing: Listing)
    requires path in listing && path != [] && path[|path| - 1] == '/' && !HasToken(path)
    requires forall e :: e in listing[path] ==> '/' !in e
    ensures ShowsOf(LocalCatalog(path), listing).Ok?
    ensures forall s :: s in ShowsOf(LocalCatalog(path), listing).value ==>
      exists e :: e in listing[path] && IsVideoEntry(e) && HasToken(e) && s.path == path + e && s.id.full == e
  {
    var entries := listing[path];
    var files := VideoFiles(path, entries);
    var kept := Reject(files, IsMovieName);
    forall k | 0 <= k < |kept|
      ensures NewShow(kept[k]).Ok?
      ensures exists e :: e in entries && IsVideoEntry(e) && HasToken(e) && kept[k] == path + e && NewShow(kept[k]).value.id.full == e
    {
      var f := kept[k];
      RejectMembers(files, IsMovieName, f);
      VideoFilesMembers(path, entries, f);
      var e :| e in entries && IsVideoEntry(e) && f == path + e;
      TokenInEntry(path, e);
      FileNameOfEntry(path, e);
    }
    var r := MapResults(kept, NewShow);
    forall s | s in r.value
      ensures exists e :: e in entries && IsVideoEntry(e) && HasToken(e) && s.path == path + e && s.id.full == e
    {
      var k :| 0 <= k < |r.value| && r.value[k] == s;
      assert NewShow(kept[k]) == Ok(s);
    }
  }

  /** Catalogs: the registered catalogs, in the order they were added. */
  class CatalogRegistry
  {
    var catalogs: seq<Catalog>

    constructor()
      ensures catalogs == []
    {
      catalogs := [];
    }

    /** Catalogs.add: appends the catalog the tag names; an unknown tag raises
        and leaves the registry as it was. */
    method Add(tag: string, path: string) returns (r: Result<Catalog>)
      modifies this
      ensures r == TypeInstance(tag, path)
      ensures catalogs == if r.Ok? then old(catalogs) + [r.value] else old(catalogs)
    {
      r := TypeInstance(tag, path);
      if r.Ok? {
        catalogs := catalogs + [r.value];
      }
    }

    /** The map of Catalogs.shows: every catalog, in registry order, is
        asked for its shows until one raises. */
    method CollectShows(listing: Listing) returns (r: Result<seq<seq<Show>>>)
      ensures r == MapResults(catalogs, ShowsIn(listing))
    {
      ghost var f := ShowsIn(listing);
      var all: seq<seq<Show>> := [];
      var i := 0;
      while i < |catalogs|
        invariant 0 <= i <= |catalogs|
        invariant MapResults(catalogs[..i], f) == Ok(all)
      {
        var s := catalogs[i].Shows(listing);
        MapResultsPrefixStep(catalogs, i, f);
        if s.Err? {
          MapResultsPrefixErr(catalogs, i + 1, f);
          return Err(s.error);
        }
        all := all + [s.value];
        i := i + 1;
      }
      assert catalogs[..i] == catalogs;
      r := Ok(all);
    }

    /** Catalogs.shows: the first error raised by a catalog
        wins, and only the first catalog's shows are returned (None, Ruby's
        nil, when no catalog is registered). */
    method Shows(listing: Listing) returns (r: Result<Option<seq<Show>>>)
      ensures r == FirstOf(MapResults(catalogs, ShowsIn(listing)))
      ensures r.Ok? <==> forall k :: 0 <= k < |catalogs| ==> ShowsOf(catalogs[k], listing).Ok?
      ensures r.Ok? ==> r.value == if catalogs == [] then None else Some(ShowsOf(catalogs[0], listing).value)
      ensures r.Err? ==> exists k :: (0 <= k < |catalogs| && ShowsOf(catalogs[k], listing) == Err(r.error) &&
        forall j :: 0 <= j < k ==> ShowsOf(catalogs[j], listing).Ok?)
    {
      var all := CollectShows(listing);
      r := FirstOf(all);
      FirstOfMapResults(catalogs, ShowsIn(listing));
    }

    /** The map of Catalogs.movies: every catalog, in registry order, is
        asked for its movies until one raises. */
    method CollectMovies(listing: Listing) returns (r: Result<seq<seq<Movie>>>)
      ensures r == MapResults(catalogs, MoviesIn(listing))
    {
      ghost var f := MoviesIn(listing);
      var all: seq<seq<Movie>> := [];
      var i := 0;
      while i < |catalogs|
        invariant 0 <= i <= |catalogs|
        invariant MapResults(catalogs[..i], f) == Ok(all)
      {
        var m := catalogs[i].Movies(listing);
        MapResultsPrefixStep(catalogs, i, f);
        if m.Err? {
          MapResultsPrefixErr(catalogs, i + 1, f);
          return Err(m.error);
        }
        all := all + [m.value];
        i := i + 1;
      }
      assert catalogs[..i] == catalogs;
      r := Ok(all);
    }

    /** Catalogs.movies: as Shows, for movies. */
    method Movies(listing: Listing) returns (r: Result<Option<seq<Movie>>>)
      ensures r == FirstOf(MapResults(catalogs, MoviesIn(listing)))
      ensures r.Ok? <==> forall k :: 0 <= k < |catalogs| ==> MoviesOf(catalogs[k], listing).Ok?
      ensures r.Ok? ==> r.value == if catalogs == [] then None else Some(MoviesOf(catalogs[0], listing).value)
      ensures r.Err? ==> exists k :: (0 <= k < |catalogs| && MoviesOf(catalogs[k], listing) == Err(r.error) &&
        forall j :: 0 <= j < k ==> MoviesOf(catalogs[j], listing).Ok?)
    {
      var all := CollectMovies(listing);
      r := FirstOf(all);
      FirstOfMapResults(catalogs, MoviesIn(listing));
    }
  }
}
