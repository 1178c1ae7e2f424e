/** Media, Movie and Show: what the listing knows about one video file, read
    from its path. */
module Media {
  import opened Wrappers
  import opened RubyStrings
  import opened Patterns
  import opened Sequences
  import opened ShowEpisode

  /** Media#file_name: `split("/").last`, the last segment of the path; None
      (Ruby's nil) when the path holds nothing but slashes. */
  function FileName(path: string): (r: Option<string>)
    ensures r.None? <==> forall k :: 0 <= k < |path| ==> path[k] == '/'
    ensures r.Some? ==> r.value != [] && '/' !in r.value
  {
    var parts := Split(path, '/');
    if parts == [] then None else Some(parts[|parts| - 1])
  }

  /** Trailing slashes do not change the file name. */
  lemma FileNameTrailingSlash(path: string)
    ensures FileName(path + "/") == FileName(path)
  {
    SplitTrailingSeparator(path, '/');
  }

  /** A path that does not end with a slash has a last segment: the text after
      its last slash, or the whole path when it has none. */
  lemma FileNameIsLastSegment(path: string)
    requires path != [] && path[|path| - 1] != '/'
    ensures FileName(path).Some?
    ensures var seg := FileName(path).value;
      |seg| <= |path| && path[|path| - |seg|..] == seg &&
      (|seg| < |path| ==> path[|path| - |seg| - 1] == '/')
  {
    SplitKeepsFields(path, '/');
    match LastIndexOf(path, '/')
    case None =>
    case Some(k) =>
      var fs := Fields(path, '/');
      assert fs[|fs| - 1] == path[k + 1..];
  }

  /** A directory entry placed after a directory path that ends with a slash
      is the file name of the result. */
  lemma FileNameOfEntry(dir: string, name: string)
    requires name != [] && '/' !in name
    requires dir == [] || dir[|dir| - 1] == '/'
    ensures FileName(dir + name) == Some(name)
  {
    var path := dir + name;
    FileNameIsLastSegment(path);
    assert path[|path| - |name|..] == name;
  }

  /** Media#resolution. */
  function Resolution(path: string): string
  {
    if Contains(path, "1080p") || Contains(path, "1080P") then "1080p"
    else if Contains(path, "720p") || Contains(path, "720P") then "720p"
    else "POOP"
  }

  /** 1080p wins whenever it occurs, 720p comes next, and anything else is "POOP". */
  lemma ResolutionCases(path: string)
    ensures Occurs(path, "1080p") || Occurs(path, "1080P") ==> Resolution(path) == "1080p"
    ensures Resolution(path) == "720p" <==>
      !Occurs(path, "1080p") && !Occurs(path, "1080P") && (Occurs(path, "720p") || Occurs(path, "720P"))
    ensures Resolution(path) == "POOP" <==>
      !Occurs(path, "1080p") && !Occurs(path, "1080P") && !Occurs(path, "720p") && !Occurs(path, "720P")
  {
    ContainsIffOccurs(path, "1080p");
    ContainsIffOccurs(path, "1080P");
    ContainsIffOccurs(path, "720p");
    ContainsIffOccurs(path, "720P");
  }

  /** The part of a name before its last dot; empty when it has no dot. */
  function Stem(name: string): string
  {
    match LastIndexOf(name, '.')
    case None => []
    case Some(k) => name[..k]
  }

  datatype Movie = Movie(path: string)
  {
    /** Movie#title: the fields of the file name between dots, the last one
        popped, joined by spaces. None when the path has no file name (Ruby
        raises on `nil.split`). */
    function Title(): (r: Option<string>)
      ensures r.Some? <==> FileName(path).Some?
      ensures r.Some? ==> '.' !in r.value
    {
      match FileName(path)
      case None => None
      case Some(name) =>
        var fields := Split(name, '.');
        var kept := if fields == [] then [] else fields[..|fields| - 1];
        NoDotInTitle(fields, kept);
        Some(Join(kept, " "))
    }

    /** Movie#info interpolates the title alone. */
    function Info(): (r: Option<string>)
      ensures r.Some? <==> FileName(path).Some?
      ensures r.Some? ==> '.' !in r.value
      ensures r == Title()
    {
      Title()
    }

    /** Movie#dts?. */
    function IsDts(): (r: bool)
      ensures r <==> Occurs(path, "DTS") || Occurs(path, "dts")
    {
      ContainsIffOccurs(path, "DTS");
      ContainsIffOccurs(path, "dts");
      Contains(path, "DTS") || Contains(path, "dts")
    }

    /** Movie#bluray?. */
    function IsBluray(): (r: bool)
      ensures r <==> Occurs(path, "BluRay") || Occurs(path, "BLURAY") || Occurs(path, "bluray")
    {
      ContainsIffOccurs(path, "BluRay");
      ContainsIffOccurs(path, "BLURAY");
      ContainsIffOccurs(path, "bluray");
      Contains(path, "BluRay") || Contains(path, "BLURAY") || Contains(path, "bluray")
    }
  }

  /** Fields split at dots, some dropped from the end, joined by spaces, hold no dot. */
  lemma NoDotInTitle(fields: seq<string>, kept: seq<string>)
    requires forall k :: 0 <= k < |fields| ==> '.' !in fields[k]
    requires kept <= fields
    ensures '.' !in Join(kept, " ")
  {
  }

  /** When the file name does not end with a dot, the movie title is the name
      without its final dot-field, every other dot turned into a space. */
  lemma MovieTitleIsStem(m: Movie)
    requires FileName(m.path).Some?
    requires var name := FileName(m.path).value; name[|name| - 1] != '.'
    ensures m.Title() == Some(Replace(Stem(FileName(m.path).value), '.', ' '))
  {
    var name := FileName(m.path).value;
    SplitKeepsFields(name, '.');
    var fields := Fields(name, '.');
    match LastIndexOf(name, '.')
    case None =>
      assert fields == [name];
    case Some(k) =>
      assert fields[..|fields| - 1] == Fields(name[..k], '.');
      JoinFields(name[..k], '.', ' ');
  }

  /** A show: its path and the identifier built from the path's file name. */
  datatype Show = Show(path: string, id: Identifier)
  {
    predicate Valid()
    {
      id.Valid() && FileName(path) == Some(id.full)
    }

    /** Show#season. */
    function Season(): (r: nat)
      requires Valid()
      ensures r <= 99
    {
      id.Season()
    }

    /** Show#episode. */
    function Episode(): (r: nat)
      requires Valid()
      ensures r <= 99
    {
      id.Episode()
    }

    /** Show#title: has neither dots nor slashes. */
    function Title(): (r: string)
      requires Valid()
      ensures '.' !in r && '/' !in r
    {
      id.Title()
    }

    /** Show#episodes: the shows of the given list that belong to the same
        series, pruned from a fresh copy in place. */
    method Episodes(shows: seq<Show>) returns (eps: seq<Show>)
      requires Valid()
      ensures eps == Reject(shows, OtherSeries(Title()))
    {
      var a := new Show[|shows|](i requires 0 <= i < |shows| => shows[i]);
      assert a[..] == shows;
      var n := DeleteIf(a, OtherSeries(Title()));
      eps := a[..n];
    }

    /** Show#info: "<title> (<number of episodes of the series>)". */
    method Info(shows: seq<Show>) returns (r: string)
      requires Valid()
      ensures r == Title() + " (" + Decimal(EpisodeCount(shows, Title())) + ")"
    {
      var eps := Episodes(shows);
      EpisodesOfSeries(shows, Title());
      r := Title() + " (" + Decimal(|eps|) + ")";
    }
  }

  /** Show.new: fails when the path has no file name or its file name holds no token. */
  function NewShow(path: string): (r: Result<Show>)
    ensures r.Ok? <==> FileName(path).Some? && HasToken(FileName(path).value)
    ensures r.Ok? ==> r.value.Valid() && r.value.path == path
    ensures r.Err? ==> r.error == if FileName(path).None? then NilFileName else MissingToken
  {
    match FileName(path)
    case None => Err(NilFileName)
    case Some(name) =>
      match Parse(name)
      case Err(e) => Err(e)
      case Ok(id) => Ok(Show(path, id))
  }

  /** Season, episode and title of a show, stated on its path's file name and
      the leftmost token in it. */
  lemma ShowFromPath(path: string, s: Show)
    requires NewShow(path) == Ok(s)
    ensures var name := FileName(path).value; var i := Find(name, Token).value;
      && MatchesAt(name, i, Token)
      && (forall j :: 0 <= j < i ==> !MatchesAt(name, j, Token))
      && IsDigit(name[i + 1]) && IsDigit(name[i + 2]) && IsDigit(name[i + 4]) && IsDigit(name[i + 5])
      && s.Season() == 10 * DigitValue(name[i + 1]) + DigitValue(name[i + 2])
      && s.Episode() == 10 * DigitValue(name[i + 4]) + DigitValue(name[i + 5])
      && (i > 0 ==> s.Title() == Strip(Replace(name[..i], '.', ' ')))
      && (i == 0 ==> s.Title() == Strip(Replace(name, '.', ' ')))
  {
    var i := s.id.Start();
    TokenAt(s.id.full, i);
    if i > 0 {
      TitleBeforeToken(s.id);
    } else {
      TitleAtStart(s.id);
    }
  }

  /** The block given to delete_if in Show#episodes: true of a show of another series. */
  function OtherSeries(title: string): Show -> bool
  {
    (s: Show) => !(s.Valid() && s.Title() == title)
  }

  /** How many shows of the list have the title. */
  function EpisodeCount(shows: seq<Show>, title: string): nat
  {
    if shows == [] then 0
    else
      var s := shows[|shows| - 1];
      EpisodeCount(shows[..|shows| - 1], title) + if s.Valid() && s.Title() == title then 1 else 0
  }

  /** Show#episodes keeps exactly the shows with the same title, and as many as EpisodeCount says. */
  lemma {:induction false} EpisodesOfSeries(shows: seq<Show>, title: string)
    ensures |Reject(shows, OtherSeries(title))| == EpisodeCount(shows, title)
    ensures forall s :: s in Reject(shows, OtherSeries(title)) <==> s in shows && s.Valid() && s.Title() == title
  {
    forall s ensures s in Reject(shows, OtherSeries(title)) <==> s in shows && s.Valid() && s.Title() == title {
      RejectMembers(shows, OtherSeries(title), s);
    }
    if shows != [] {
      EpisodesOfSeries(shows[..|shows| - 1], title);
    }
  }
}
