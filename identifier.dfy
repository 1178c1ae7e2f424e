/** ShowEpisodeIdentifier: season, episode and series title read from a file
    name that holds a token S<2 digits>E<2 digits>. */
module ShowEpisode {
  import opened Wrappers
  import opened RubyStrings
  import opened Patterns

  /** /[S][0-9]{2}[E][0-9]{2}/ */
  const Token: Pattern := [Lit('S'), Digit, Digit, Lit('E'), Digit, Digit]
  /** /[S]([0-9]{2})/ */
  const SeasonGroup: Pattern := [Lit('S'), Digit, Digit]
  /** /[E]([0-9]{2})/ */
  const EpisodeGroup: Pattern := [Lit('E'), Digit, Digit]

  /** Catalog#show?: the name holds a token somewhere. */
  predicate HasToken(name: string)
    ensures HasToken(name) <==> exists i: nat :: MatchesAt(name, i, Token)
  {
    Find(name, Token).Some?
  }

  /** `full` is the name the identifier was built from; `ident` is the seven
      characters kept from the start of the leftmost token (fewer at the end of the name). */
  datatype Identifier = Identifier(full: string, ident: string)
  {
    predicate Valid()
    {
      Find(full, Token).Some? && ident == Slice(full, Find(full, Token).value, 7)
    }

    /** Where the leftmost token of the name starts. */
    function Start(): (i: nat)
      requires Valid()
      ensures MatchesAt(full, i, Token)
      ensures forall j :: 0 <= j < i ==> !MatchesAt(full, j, Token)
    {
      Find(full, Token).value
    }

    /** The two digits after the token's S, read as a number. */
    function Season(): (r: nat)
      requires Valid()
      ensures AtomMatches(Token[1], full[Start() + 1]) && AtomMatches(Token[2], full[Start() + 2])
      ensures r == 10 * DigitValue(full[Start() + 1]) + DigitValue(full[Start() + 2])
      ensures r <= 99
    {
      GroupsInIdent(this);
      var k := Find(ident, SeasonGroup).value;
      TwoDigitsValue(ident[k + 1..k + 3]);
      DigitsValue(ident[k + 1..k + 3])
    }

    /** The two digits after the token's E, read as a number. */
    function Episode(): (r: nat)
      requires Valid()
      ensures AtomMatches(Token[4], full[Start() + 4]) && AtomMatches(Token[5], full[Start() + 5])
      ensures r == 10 * DigitValue(full[Start() + 4]) + DigitValue(full[Start() + 5])
      ensures r <= 99
    {
      GroupsInIdent(this);
      var k := Find(ident, EpisodeGroup).value;
      TwoDigitsValue(ident[k + 1..k + 3]);
      DigitsValue(ident[k + 1..k + 3])
    }

    /** `@full[0..i - 1]` with dots turned into spaces, then stripped. With the
        token at index 0 the Ruby range `0..-1` is the whole name. */
    function Title(): (r: string)
      requires Valid()
      ensures '.' !in r
      ensures r == [] || (!IsSpace(r[0]) && !IsSpace(r[|r| - 1]))
      ensures forall c :: c in r ==> c == ' ' || c in full
    {
      var before := RangeInclusive(full, 0, Start() - 1);
      assert forall c :: c in before ==> c in full;
      ReplacedChars(before, '.', ' ');
      Strip(Replace(before, '.', ' '))
    }
  }

  /** What a token match says about each of its six characters. */
  lemma TokenAt(s: string, i: nat)
    requires MatchesAt(s, i, Token)
    ensures i + 6 <= |s| && s[i] == 'S' && s[i + 3] == 'E'
    ensures IsDigit(s[i + 1]) && IsDigit(s[i + 2]) && IsDigit(s[i + 4]) && IsDigit(s[i + 5])
  {
    assert AtomMatches(Token[0], s[i]) && AtomMatches(Token[1], s[i + 1]) && AtomMatches(Token[2], s[i + 2]);
    assert AtomMatches(Token[3], s[i + 3]) && AtomMatches(Token[4], s[i + 4]) && AtomMatches(Token[5], s[i + 5]);
  }

  /** The leftmost season group of the kept slice is at 0 and the leftmost episode group at 3. */
  lemma GroupsInIdent(id: Identifier)
    requires id.Valid()
    ensures |id.ident| >= 6 && id.ident[..6] == id.full[id.Start()..id.Start() + 6]
    ensures IsDigit(id.ident[1]) && IsDigit(id.ident[2]) && IsDigit(id.ident[4]) && IsDigit(id.ident[5])
    ensures Find(id.ident, SeasonGroup) == Some(0)
    ensures Find(id.ident, EpisodeGroup) == Some(3)
  {
    var i, s := id.Start(), id.ident;
    TokenAt(id.full, i);
    assert forall k :: 0 <= k < 6 ==> s[k] == id.full[i + k];
    assert s[0] == 'S' && s[3] == 'E';
    forall k | 0 <= k < 3 ensures AtomMatches(SeasonGroup[k], s[k]) {
    }
    assert MatchesAt(s, 0, SeasonGroup);
    forall k | 0 <= k < 3 ensures AtomMatches(EpisodeGroup[k], s[3 + k]) {
    }
    assert MatchesAt(s, 3, EpisodeGroup);
    assert !AtomMatches(EpisodeGroup[0], s[0]) && !AtomMatches(EpisodeGroup[0], s[1]) && !AtomMatches(EpisodeGroup[0], s[2]);
    var e := Find(s, EpisodeGroup);
    assert e.Some? && e.value <= 3;
    assert e.value != 0 && e.value != 1 && e.value != 2;
  }

  /** `ShowEpisodeIdentifier.new`: fails, as the Ruby slice with a nil index does, when there is no token. */
  function Parse(name: string): (r: Result<Identifier>)
    ensures r.Ok? <==> HasToken(name)
    ensures r.Ok? ==> r.value.Valid() && r.value.full == name
    ensures r.Err? ==> r.error == MissingToken
  {
    match Find(name, Token)
    case None => Err(MissingToken)
    case Some(i) => Ok(Identifier(name, Slice(name, i, 7)))
  }

  /** With the token past the start, the title is the text before the token,
      dots turned into spaces, stripped. */
  lemma TitleBeforeToken(id: Identifier)
    requires id.Valid() && id.Start() > 0
    ensures id.Title() == Strip(Replace(id.full[..id.Start()], '.', ' '))
  {
  }

  /** With the token at index 0 the title is built from the whole name, so it
      is never empty and begins with the token's S. */
  lemma TitleAtStart(id: Identifier)
    requires id.Valid() && id.Start() == 0
    ensures id.Title() == Strip(Replace(id.full, '.', ' '))
    ensures id.Title() != [] && id.Title()[0] == 'S'
  {
    TokenAt(id.full, 0);
    WholeRange(id.full);
    var t := Replace(id.full, '.', ' ');
    assert t[0] == 'S';
    StripKeepsFirst(t);
  }
}
