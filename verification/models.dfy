/**
 * The game records and the rules declared on them: the genre and ambiance
 * choice tables with their display names, the keyword list derived from the
 * comma-separated keywords, the default ordering of games, favorites and
 * narrative history, the one-favorite-per-user-and-game constraint, and the
 * act domain of narrative choices and history entries.
 *
 * A table is a sequence of rows in insertion order; user and game references
 * are their ids.
 */
module Models {
  import opened Wrappers
  import PyStr
  import Ordering

  // ---------------------------------------------------------------------------
  // Choice tables and display names

  /** A `choices` list: pairs of (stored code, display label). */
  type Choices = seq<(string, string)>

  const GenreChoices: Choices := [
    ("rpg", "RPG"),
    ("fps", "FPS"),
    ("adventure", "Adventure"),
    ("strategy", "Strategy"),
    ("puzzle", "Puzzle"),
    ("platformer", "Platformer"),
    ("metroidvania", "Metroidvania"),
    ("visual_novel", "Visual Novel"),
    ("other", "Other")
  ]

  const AmbianceChoices: Choices := [
    ("post_apocalyptic", "Post-Apocalyptic"),
    ("fantasy", "Fantasy"),
    ("cyberpunk", "Cyberpunk"),
    ("scifi", "Sci-Fi"),
    ("horror", "Horror"),
    ("mystery", "Mystery"),
    ("historical", "Historical"),
    ("dreamlike", "Dreamlike"),
    ("dark_fantasy", "Dark Fantasy"),
    ("other", "Other")
  ]

  /** No code appears twice in the table. */
  predicate DistinctCodes(t: Choices) {
    forall i, j :: 0 <= i < j < |t| ==> t[i].0 != t[j].0
  }

  /** Within each of the two tables every code is listed once. */
  lemma ChoiceTablesDistinct()
    ensures DistinctCodes(GenreChoices) && DistinctCodes(AmbianceChoices)
  {
  }

  /** `get_<field>_display()`: the label the table pairs with `code`, and
      `code` itself when the table does not list it. (The table is read into a
      dictionary, so of two pairs with one code the later one would win.) */
  function DisplayName(t: Choices, code: string): (r: string)
    ensures (forall i :: 0 <= i < |t| ==> t[i].0 != code) ==> r == code
    ensures DistinctCodes(t) ==> forall i :: 0 <= i < |t| && t[i].0 == code ==> r == t[i].1
  {
    if t == [] then code
    else if t[|t| - 1].0 == code then t[|t| - 1].1
    else DisplayName(t[..|t| - 1], code)
  }

  // ---------------------------------------------------------------------------
  // Game

  datatype Game = Game(
    id: nat,
    owner: nat,
    title: string,
    genre: string,
    ambiance: string,
    keywords: string,
    references: string,
    universeDescription: string,
    storyAct1: string,
    storyAct2: string,
    storyAct3: string,
    hasDynamicNarrative: bool,
    createdAt: int,
    updatedAt: int)

  /** `Game.genre_name`: the genre's label from the genre table. */
  function GenreName(g: Game): (r: string)
    ensures forall i :: 0 <= i < |GenreChoices| && GenreChoices[i].0 == g.genre ==> r == GenreChoices[i].1
    ensures (forall i :: 0 <= i < |GenreChoices| ==> GenreChoices[i].0 != g.genre) ==> r == g.genre
  {
    ChoiceTablesDistinct();
    DisplayName(GenreChoices, g.genre)
  }

  /** `Game.ambiance_name`: the ambiance's label from the ambiance table. */
  function AmbianceName(g: Game): (r: string)
    ensures forall i :: 0 <= i < |AmbianceChoices| && AmbianceChoices[i].0 == g.ambiance ==> r == AmbianceChoices[i].1
    ensures (forall i :: 0 <= i < |AmbianceChoices| ==> AmbianceChoices[i].0 != g.ambiance) ==> r == g.ambiance
  {
    ChoiceTablesDistinct();
    DisplayName(AmbianceChoices, g.ambiance)
  }

  /** `[p.strip() for p in pieces]`. */
  function StripEach(pieces: seq<string>): (r: seq<string>)
    ensures |r| == |pieces|
    ensures forall i :: 0 <= i < |r| ==> PyStr.NoEdgeSpace(r[i]) && PyStr.TrimmedOf(pieces[i], r[i])
  {
    if pieces == [] then []
    else
      PyStr.StripSpec(pieces[0]);
      [PyStr.Strip(pieces[0])] + StripEach(pieces[1..])
  }

  /** Stripping each of three pieces. */
  lemma StripEachThree(a: string, b: string, d: string)
    ensures StripEach([a, b, d]) == [PyStr.Strip(a), PyStr.Strip(b), PyStr.Strip(d)]
  {
    assert [d][1..] == [];
    assert StripEach([d]) == [PyStr.Strip(d)];
    assert [b, d][1..] == [d];
    assert StripEach([b, d]) == [PyStr.Strip(b)] + StripEach([d]);
    assert [a, b, d][1..] == [b, d];
    assert StripEach([a, b, d]) == [PyStr.Strip(a)] + StripEach([b, d]);
  }

  /** A string trimmed out of a comma-free string holds no comma. */
  lemma TrimmedHasNoComma(p: string, k: string)
    requires !PyStr.Contains(p, ",") && PyStr.TrimmedOf(p, k)
    ensures ',' !in k
  {
    var i :| 0 <= i <= |p| - |k| && k == p[i..i + |k|] && PyStr.AllSpace(p[..i]) && PyStr.AllSpace(p[i + |k|..]);
    PyStr.SliceWithout(p, ',', i, k);
  }

  /** `Game.keyword_list`: the keywords split at each comma, each piece stripped
      of surrounding whitespace; no keywords give an empty list. There is one
      entry more than there are commas, and no entry holds a comma or starts or
      ends with whitespace. */
  function KeywordList(g: Game): (r: seq<string>)
    ensures g.keywords == [] ==> r == []
    ensures g.keywords != [] ==> |r| == multiset(g.keywords)[','] + 1
    ensures forall i :: 0 <= i < |r| ==> ',' !in r[i] && PyStr.NoEdgeSpace(r[i])
    ensures g.keywords != [] ==>
      var pieces := PyStr.Split(g.keywords, ",");
      |r| == |pieces| && (forall i :: 0 <= i < |r| ==> PyStr.TrimmedOf(pieces[i], r[i]))
  {
    if g.keywords == [] then []
    else
      var pieces := PyStr.Split(g.keywords, ",");
      PyStr.SplitLength(g.keywords, ",");
      PyStr.CountChar(g.keywords, ',');
      PyStr.SplitPiecesFree(g.keywords, ",");
      var r := StripEach(pieces);
      assert forall i :: 0 <= i < |r| ==> ',' !in r[i] by {
        forall i | 0 <= i < |r| ensures ',' !in r[i] {
          assert pieces[i] in pieces;
          TrimmedHasNoComma(pieces[i], r[i]);
        }
      }
      r
  }

  // ---------------------------------------------------------------------------
  // Default orderings

  /** `Game.Meta.ordering = ['-created_at']`: games newest first. */
  function GamesNewestFirst(games: seq<Game>): (r: seq<Game>)
    ensures multiset(r) == multiset(games)
    ensures forall i, j :: 0 <= i < j < |r| ==> r[i].createdAt >= r[j].createdAt
  {
    var r := Ordering.SortBy(games, (g: Game) => -g.createdAt);
    assert forall i, j :: 0 <= i < j < |r| ==> -r[i].createdAt <= -r[j].createdAt;
    r
  }

  // ---------------------------------------------------------------------------
  // Favorites

  datatype Favorite = Favorite(user: nat, game: nat, createdAt: int)

  /** `unique_together = ('user', 'game')`: no two rows share a user and a game. */
  predicate UniqueFavorites(t: seq<Favorite>) {
    forall i, j :: 0 <= i < j < |t| ==> t[i].user != t[j].user || t[i].game != t[j].game
  }

  /** The database refuses a row that breaks a declared constraint. */
  datatype DbError = IntegrityError

  /** Inserting a favorite: refused when the user already has that game as a
      favorite, appended otherwise, so the table never holds two rows for one
      (user, game) pair. */
  function SaveFavorite(t: seq<Favorite>, f: Favorite): (r: Result<seq<Favorite>, DbError>)
    ensures r.Failure? <==> exists i :: 0 <= i < |t| && t[i].user == f.user && t[i].game == f.game
    ensures r.Success? ==> r.value == t + [f]
    ensures UniqueFavorites(t) && r.Success? ==> UniqueFavorites(r.value)
  {
    if exists i :: 0 <= i < |t| && t[i].user == f.user && t[i].game == f.game then Failure(IntegrityError)
    else Success(t + [f])
  }

  /** `Favorite.Meta.ordering = ['-created_at']`: favorites newest first. */
  function FavoritesNewestFirst(t: seq<Favorite>): (r: seq<Favorite>)
    ensures multiset(r) == multiset(t)
    ensures forall i, j :: 0 <= i < j < |r| ==> r[i].createdAt >= r[j].createdAt
  {
    var r := Ordering.SortBy(t, (f: Favorite) => -f.createdAt);
    assert forall i, j :: 0 <= i < j < |r| ==> -r[i].createdAt <= -r[j].createdAt;
    r
  }

  // ---------------------------------------------------------------------------
  // Narrative choices and history

  /** The `choices` of the `act` field: acts 1, 2 and 3. */
  predicate IsAct(a: int) {
    a == 1 || a == 2 || a == 3
  }

  datatype NarrativeChoice = NarrativeChoice(id: nat, game: nat, choiceText: string, outcomeDescription: string, act: int)

  datatype NarrativeHistory = NarrativeHistory(game: nat, choiceText: string, outcomeDescription: string, act: int, createdAt: int)

  /** What field validation reports about a narrative row. */
  datatype ValidationError =
    | ChoiceTextBlank      // `choice_text` may not be blank
    | ChoiceTextTooLong    // `choice_text` has `max_length=200`
    | OutcomeBlank         // `outcome_description` may not be blank
    | ActNotAChoice        // `act` must be one of its choices

  /** The errors field validation finds in the fields shared by narrative
      choices and history entries; none exactly when the act is 1, 2 or 3,
      the choice text is non-empty and at most 200 characters long and the
      outcome is non-empty. */
  function NarrativeErrors(choiceText: string, outcomeDescription: string, act: int): (errs: set<ValidationError>)
    ensures errs == {} <==> IsAct(act) && 0 < |choiceText| <= 200 && outcomeDescription != []
    ensures ActNotAChoice in errs <==> !IsAct(act)
  {
    (if choiceText == [] then {ChoiceTextBlank} else if |choiceText| > 200 then {ChoiceTextTooLong} else {})
    + (if outcomeDescription == [] then {OutcomeBlank} else {})
    + (if IsAct(act) then {} else {ActNotAChoice})
  }

  /** Every choice in the table is for act 1, 2 or 3. */
  predicate ChoiceActsValid(t: seq<NarrativeChoice>) {
    forall i :: 0 <= i < |t| ==> IsAct(t[i].act)
  }

  /** Every history entry in the table is for act 1, 2 or 3. */
  predicate HistoryActsValid(t: seq<NarrativeHistory>) {
    forall i :: 0 <= i < |t| ==> IsAct(t[i].act)
  }

  /** Creation timestamps increase along the table (`auto_now_add` on
      successive saves). */
  predicate Chronological(t: seq<NarrativeHistory>) {
    forall i, j :: 0 <= i < j < |t| ==> t[i].createdAt < t[j].createdAt
  }

  /** Creating a validated narrative choice keeps every act in {1, 2, 3}. */
  lemma CreateChoiceKeepsActs(t: seq<NarrativeChoice>, c: NarrativeChoice)
    requires ChoiceActsValid(t)
    requires NarrativeErrors(c.choiceText, c.outcomeDescription, c.act) == {}
    ensures ChoiceActsValid(t + [c])
  {
  }

  /** A history entry saved at time `now`: the row is appended and stamped. */
  function CreateHistory(t: seq<NarrativeHistory>, game: nat, choiceText: string, outcomeDescription: string, act: int, now: int): (r: seq<NarrativeHistory>)
    ensures |r| == |t| + 1 && r[..|t|] == t
    ensures r[|t|] == NarrativeHistory(game, choiceText, outcomeDescription, act, now)
  {
    t + [NarrativeHistory(game, choiceText, outcomeDescription, act, now)]
  }

  /** Creating a validated history entry keeps every act in {1, 2, 3}, and a
      clock that moves forward keeps the table chronological. */
  lemma CreateHistoryKeepsInvariants(t: seq<NarrativeHistory>, game: nat, choiceText: string, outcomeDescription: string, act: int, now: int)
    requires HistoryActsValid(t) && Chronological(t)
    requires NarrativeErrors(choiceText, outcomeDescription, act) == {}
    requires forall i :: 0 <= i < |t| ==> t[i].createdAt < now
    ensures HistoryActsValid(CreateHistory(t, game, choiceText, outcomeDescription, act, now))
    ensures Chronological(CreateHistory(t, game, choiceText, outcomeDescription, act, now))
  {
  }

  /** The history rows of one game, in table order: every row of that game,
      as many times as the table holds it, and no other row. */
  function HistoryRowsOf(t: seq<NarrativeHistory>, game: nat): (r: seq<NarrativeHistory>)
    ensures forall e :: e in r <==> e in t && e.game == game
    ensures multiset(r) <= multiset(t)
    ensures forall e :: multiset(r)[e] == (if e.game == game then multiset(t)[e] else 0)
  {
    if t == [] then []
    else
      assert t == [t[0]] + t[1..];
      assert multiset(t) == multiset{t[0]} + multiset(t[1..]);
      var rest := HistoryRowsOf(t[1..], game);
      if t[0].game == game then [t[0]] + rest else rest
  }

  /** `game.narrative_history.all()` with `ordering = ['created_at']`: the
      game's history entries, oldest first. */
  function HistoryOf(t: seq<NarrativeHistory>, game: nat): (r: seq<NarrativeHistory>)
    ensures multiset(r) == multiset(HistoryRowsOf(t, game))
    ensures forall e :: e in r <==> e in t && e.game == game
    ensures forall i, j :: 0 <= i < j < |r| ==> r[i].createdAt <= r[j].createdAt
  {
    var rows := HistoryRowsOf(t, game);
    var r := Ordering.SortBy(rows, (e: NarrativeHistory) => e.createdAt);
    assert forall e :: e in r <==> e in multiset(rows);
    r
  }

  /** Keeping only some rows of a chronological table leaves them chronological. */
  lemma {:induction false} HistoryRowsChronological(t: seq<NarrativeHistory>, game: nat)
    requires Chronological(t)
    ensures Chronological(HistoryRowsOf(t, game))
  {
    if t != [] {
      assert Chronological(t[1..]);
      HistoryRowsChronological(t[1..], game);
      var rest := HistoryRowsOf(t[1..], game);
      forall j | 0 <= j < |rest| ensures t[0].createdAt < rest[j].createdAt {
        assert rest[j] in t[1..];
      }
    }
  }

  /** When entries are stamped as they are saved, reading a game's history
      oldest first gives its entries in the order they were saved. */
  lemma HistoryInSaveOrder(t: seq<NarrativeHistory>, game: nat)
    requires Chronological(t)
    ensures HistoryOf(t, game) == HistoryRowsOf(t, game)
  {
    HistoryRowsChronological(t, game);
    Ordering.SortBySorted(HistoryRowsOf(t, game), (e: NarrativeHistory) => e.createdAt);
  }
}
