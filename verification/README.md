# Game concept designer: a Dafny model of its core rules

The application lets a signed-in user describe a video game by genre,
ambiance, keywords and references. It asks a chat-completion service for a
concept as JSON: a title, a universe, three story acts, characters and
locations. It stores that concept as a `Game` with its `Character` and
`Location` rows, and downloads an illustration for every character and
location. This project models the rules inside that flow that do not
depend on the network or the file system:

- `Views`:
  - cuts the JSON object out of the chat reply (first `{` to last `}`);
  - falls back to a fixed French package whenever the reply cannot be used;
  - fills missing keys with each view's defaults, for `create_game` and `random_game`;
  - sanitises the image file name with two regular-expression substitutions;
  - builds the relative path an image is stored under.
- `Models`:
  - the genre and ambiance choice tables and their display names;
  - `keyword_list`;
  - the default orderings of games, favorites and narrative history;
  - the one-favorite-per-user-and-game constraint;
  - the act domain and field validation of narrative choices and history entries.
- `GameExtras`: the `split` and `strip` template filters.
- `PyStr`: the Python `str` methods those rules are built from: `find`,
  `rfind`, `split`, `join`, `count`, `lstrip`, `rstrip`, `strip` and `isspace`.
- `Ordering`: a stable sort by one integer key. It stands for a default
  `ordering` on a timestamp column.
- `Wrappers`: `Option` and `Result`.

Everything the outside world decides is a parameter of the model:
- whether `OPENAI_API_KEY` is set;
- what the chat call replied, or that it raised;
- what `json.loads` makes of a text;
- the HTTP status of the image download, or that it raised;
- whether writing the file succeeded;
- which characters the regular-expression classes `\w` and `\s` match.

Database tables are sequences of rows in insertion order. Timestamps are
integers.

## Model

| member | source | states |
|---|---|---|
| PyStr.Find | games/views.py:249 | `find('{')` is -1 exactly when the character is absent; otherwise it is an index holding the character with no earlier occurrence |
| PyStr.RFind | games/views.py:250 | `rfind('}')` is -1 exactly when the character is absent; otherwise it is an index holding the character with no later occurrence |
| PyStr.IsSpace | games/templatetags/game_extras.py:19 | the characters `str.isspace()` accepts; it has no contract of its own, and Views.PythonWhitespaceFits shows it meets what the sanitiser assumes of `\s` |
| PyStr.FindIsFirst | games/views.py:249 | `find` reports an index no later than any occurrence of the character |
| PyStr.RFindIsLast | games/views.py:250 | `rfind` reports an index no earlier than any occurrence of the character |
| Views.BracesFound | games/views.py:249-252 | when some `{` comes before some `}`, `find` finds a `{` and `rfind` a `}` after it, so the span is taken |
| Views.BracesSpan | games/views.py:249-253 | the span taken from the first `{` to a later last `}` starts with `{` and ends with `}` |
| Views.JsonSpan | games/views.py:248-253 | a span exists exactly when some `{` comes before some `}`; it is the text from the first `{` to the last `}`, both included |
| Views.GenerateGameContent | games/views.py:178-286 | no data exactly when the API key is unset or empty; with the key set, the parsed span whenever the reply has a span that parses, and the fallback package when the call raised, the reply has no span, or the span does not parse |
| Views.FallbackPackage | games/views.py:265-286 | the fixed package; it has no contract of its own, its content is stated by the Views.FallbackItems and Views.FallbackDraft rows |
| Views.FallbackItems | games/views.py:272-285 | the fallback package's character and location lists each hold exactly one object |
| Views.FallbackDraft | games/views.py:265-286 | the fallback package builds a game titled "Nouveau Jeu" with one character "Héros" and one location "Monde initial" |
| Views.Get | games/views.py:46-50 | `data.get(key, default)` is the value under the key when the key is present, and the default when it is missing |
| Views.CharacterFrom | games/views.py:56-62 | each field of a character is the item's value for `name`, `role`, `background` or `abilities`, or the view's default for it when the key is missing |
| Views.LocationFrom | games/views.py:76-80 | each field of a location is the item's value for `name` or `description`, or the view's default for it when the key is missing |
| Views.ObjectItems | games/views.py:54-55 | iterating a value and calling `.get` on each item works exactly for arrays of objects, the empty string and the empty object; an array gives its objects in order, the empty string and the empty object give no items |
| Views.BuildDraft | games/views.py:44-161 | `create_game` and `random_game` build a game exactly when there is non-empty data whose `characters` and `locations` (missing ones count as empty lists) are lists of objects; they fail generation exactly when there is no data or an empty object, and stop at `characters` first when it is not a list of objects; every field is the generated value or, when the key is missing, the view's default ("Untitled Game", "Unknown Character", "Unknown Location" in `create_game`; "Random Game", "Random Character", "Random Location" in `random_game`; "Unknown Role" and "" in both); one character per character object and one location per location object, in order |
| Views.PlaceholderNames | games/views.py:46-160 | a built game without `title` is called "Untitled Game" by `create_game` and "Random Game" by `random_game`; a character item without `name` becomes "Unknown Character" or "Random Character", and a location item without `name` "Unknown Location" or "Random Location" |
| Views.GenerationFailsOnlyWithoutData | games/views.py:42-44 | with the key set, a view reports a failed generation exactly when the reply's span parses to an empty object |
| Views.PythonWhitespaceFits | games/views.py:339-340 | Python's whitespace set, with any word class that contains ASCII letters, digits and `_` but not `/`, meets every assumption the sanitiser's proofs make about `\w` and `\s` |
| Views.RemoveUnsafe | games/views.py:339 | the first substitution never makes the name longer; which characters it keeps is stated by the Views.RemoveUnsafeChars and Views.RemoveUnsafeKeepsSafe rows |
| Views.RemoveUnsafeChars | games/views.py:339 | a character survives the first substitution exactly when it is in the name and is a word character, whitespace, `.` or `-` |
| Views.CollapseFrom | games/views.py:340 | the scan that replaces each whitespace run with one `_` never makes the name longer; what it yields is stated by the Views.CollapseSpaceRun, Views.CollapseRun, Views.CollapseChars, Views.CollapseFromAppend and Views.CollapseWithoutSpaces rows |
| Views.CollapseSpaces | games/views.py:340 | the second substitution never makes the name longer; what it yields is stated by the Views.CollapseRun row (each maximal whitespace run becomes exactly one `_`) and the Views.CollapseChars, Views.CollapseWithoutSpaces and Views.CollapseAppend rows |
| Views.CollapseChars | games/views.py:340 | after collapsing, every character is `_` or a non-whitespace character of the input |
| Views.SafeFileName | games/views.py:338-340 | the sanitised name is no longer than the given one; it holds no whitespace and only word characters, `.` and `-` |
| Views.RemoveUnsafeKeepsSafe | games/views.py:339 | a name made only of kept characters passes the first substitution unchanged |
| Views.CollapseWithoutSpaces | games/views.py:340 | a name without whitespace passes the second substitution unchanged |
| Views.SafeFileNameIdempotent | games/views.py:338-340 | sanitising a sanitised name changes nothing |
| Views.RemoveUnsafeAppend | games/views.py:339 | the first substitution distributes over concatenation |
| Views.CollapseFromAppend | games/views.py:340 | collapsing a concatenation is collapsing the first part, then the second part given how the first part ended |
| Views.CollapseAppend | games/views.py:340 | collapsing distributes over a concatenation whose joint is not inside a whitespace run |
| Views.CollapseSpaceRun | games/views.py:340 | a run of whitespace gives one `_` when it starts a run and nothing when it continues one |
| Views.CollapseRun | games/views.py:340 | a maximal whitespace run between two parts becomes exactly one `_`, and the parts on either side are collapsed on their own |
| Views.FixedPartsSafe | games/views.py:69 | the prefixes `character_` and `location_` and the extension `.jpg` pass both substitutions unchanged |
| Views.ImageFileName | games/views.py:69 | the image name is the prefix, then the character or location name, then `.jpg`, with nothing else in between |
| Views.SafeImageFileName | games/views.py:69-168 | a character image is stored as `character_` + the sanitised name + `.jpg`, a location image as `location_` + the sanitised name + `.jpg` |
| Views.KeptAround | games/views.py:339 | the first substitution leaves parts made only of kept characters in place around a name and cleans only the name |
| Views.CollapsedAround | games/views.py:340 | the second substitution leaves non-empty whitespace-free parts in place around a name and collapses only the name |
| Views.DownloadAndSaveImage | games/views.py:317-355 | a path comes back exactly when the download answered 200 and the file was written; it is `subfolder/` followed by the sanitised name |
| Views.ImagePathInSubfolder | games/views.py:343-351 | what follows `subfolder/` in a returned path holds no `/` and no whitespace, so the file sits directly in the subfolder |
| Views.ImageNamesCollide | games/views.py:338-340 | distinct names ("a b", "a  b", "a_b") are stored under one file name, "a_b" |
| Views.RandomGameLabels | games/views.py:115-116 | a random game uses the first genre and ambiance, displayed as "RPG" and "Post-Apocalyptic" |
| Views.RandomKeywordPieces | games/views.py:117 | the keywords of a random game split at commas into "adventure", " mystery" and " magic" |
| Views.RandomKeywordsStripped | games/views.py:117 | stripping those pieces gives "adventure", "mystery" and "magic" |
| Views.RandomKeywordList | games/views.py:117-127 | a random game's keyword list is ["adventure", "mystery", "magic"] |
| PyStr.IndexOf | games/templatetags/game_extras.py:11 | the leftmost occurrence of the separator, or -1 exactly when it does not occur |
| PyStr.Split | games/templatetags/game_extras.py:11 | a split has at least one piece; what the pieces are is stated by the PyStr.SplitLeftmost, PyStr.SplitJoin, PyStr.SplitPiecesFree, PyStr.SplitLength and PyStr.SplitThree rows |
| PyStr.Count | games/models.py:59 | the non-overlapping count times the substring's length fits in the string, and the count is 0 exactly when the substring does not occur |
| PyStr.SplitJoin | games/templatetags/game_extras.py:11 | joining the pieces of a split with the separator gives the string back |
| PyStr.SplitLeftmost | games/templatetags/game_extras.py:11 | every cut is at the leftmost occurrence of the separator in what remains: after the first pieces, the next separator found ends the next piece |
| PyStr.SplitAtChar | games/templatetags/game_extras.py:11 | splitting at a one-character separator first cuts off the text before its first occurrence |
| PyStr.SplitNoChar | games/templatetags/game_extras.py:11 | a string without the separator splits into itself alone |
| PyStr.SplitThree | games/templatetags/game_extras.py:11 | three separator-free pieces joined by the separator split back into those three pieces |
| PyStr.SplitPiecesFree | games/templatetags/game_extras.py:11 | no piece of a split contains the separator |
| PyStr.SplitLength | games/templatetags/game_extras.py:11 | a split has one piece more than the separator's non-overlapping count |
| PyStr.CountChar | games/models.py:59 | the count of a one-character separator is the number of times that character occurs |
| PyStr.LStrip | games/templatetags/game_extras.py:19 | `lstrip` never makes a string longer; what it removes is stated by the PyStr.LStripSpec row |
| PyStr.RStrip | games/templatetags/game_extras.py:19 | `rstrip` never makes a string longer; what it removes is stated by the PyStr.RStripSpec row |
| PyStr.Strip | games/templatetags/game_extras.py:19 | `strip` never makes a string longer; what it removes is stated by the PyStr.StripSpec, PyStr.StripPadded and PyStr.StripUnique rows |
| PyStr.LStripSpec | games/templatetags/game_extras.py:19 | `lstrip` removes only leading whitespace and leaves a suffix that does not start with whitespace |
| PyStr.RStripSpec | games/templatetags/game_extras.py:19 | `rstrip` removes only trailing whitespace and leaves a prefix that does not end with whitespace |
| PyStr.StripSpec | games/templatetags/game_extras.py:19 | `strip` gives a contiguous part of its input, only whitespace removed around it, with no whitespace at either end |
| PyStr.TrimmedParts | games/templatetags/game_extras.py:19 | removing leading whitespace and then trailing whitespace leaves a part of the input with only whitespace cut off at each end |
| PyStr.StripPadded | games/templatetags/game_extras.py:19 | `strip` of a whitespace-padded string whose core has no whitespace at its ends is that core |
| PyStr.StripWord | games/templatetags/game_extras.py:19 | a word with no whitespace at its ends is unchanged by `strip`, also after one leading space |
| PyStr.StripUnique | games/templatetags/game_extras.py:19 | the result `StripSpec` describes is unique |
| PyStr.StripIdempotent | games/templatetags/game_extras.py:19 | stripping twice is stripping once |
| GameExtras.Split | games/templatetags/game_extras.py:5-11 | the filter fails exactly on an empty separator; otherwise joining the pieces gives the value back, no piece contains the separator, there is one piece more than the separator's count, and each piece ends where the leftmost separator in the rest of the value begins |
| GameExtras.SplitWithoutSeparator | games/templatetags/game_extras.py:5-11 | a value without the separator gives itself as the only piece |
| GameExtras.Strip | games/templatetags/game_extras.py:13-19 | the result is the value without its surrounding whitespace and has none left at its ends |
| GameExtras.StripFilterIdempotent | games/templatetags/game_extras.py:13-19 | applying the filter twice is applying it once |
| Models.ChoiceTablesDistinct | games/models.py:6-29 | no code appears twice in the genre table or in the ambiance table |
| Models.DisplayName | games/models.py:62-70 | a listed code shows its label; an unlisted code shows itself |
| Models.GenreName | games/models.py:62-65 | the genre's label from the genre table, or the stored code when it is not listed |
| Models.AmbianceName | games/models.py:67-70 | the ambiance's label from the ambiance table, or the stored code when it is not listed |
| Models.StripEach | games/models.py:59 | each entry is the stripped form of its piece |
| Models.StripEachThree | games/models.py:59 | stripping each of three pieces gives the three stripped pieces in order |
| Models.TrimmedHasNoComma | games/models.py:59 | stripping a comma-free piece leaves no comma |
| PyStr.SliceWithout | games/models.py:59 | a part cut out of a string that does not contain a character does not contain it either |
| Models.KeywordList | games/models.py:55-60 | empty keywords give an empty list; otherwise there is one entry per comma plus one, and each entry is its split piece with surrounding whitespace removed, so no entry holds a comma or has whitespace at its ends |
| Models.GamesNewestFirst | games/models.py:49-50 | games are listed newest first, all of them and only them |
| Ordering.Insert | games/models.py:49-50 | inserting into a sorted list keeps it sorted and adds exactly that element |
| Ordering.LowerBoundKept | games/models.py:49-50 | a bound below every key stays below every key after inserting an element above the bound |
| Ordering.SortBy | games/models.py:49-50 | the result is sorted by the key and is a permutation of the rows |
| Ordering.SortBySorted | games/models.py:127-128 | sorting rows that are already in order returns them unchanged |
| Models.SaveFavorite | games/models.py:100-102 | saving a favorite fails with an integrity error exactly when the user already has that game; otherwise the row is appended, and a table without duplicate (user, game) pairs stays that way |
| Models.FavoritesNewestFirst | games/models.py:100-101 | favorites are listed newest first, all of them and only them |
| Models.NarrativeErrors | games/models.py:109-113 | validation finds nothing exactly when the act is 1, 2 or 3, the choice text is non-empty and at most 200 characters, and the outcome is non-empty; it reports a bad act exactly when the act is not 1, 2 or 3 |
| Models.CreateChoiceKeepsActs | games/models.py:109-113 | creating a validated narrative choice keeps every act in {1, 2, 3} |
| Models.CreateHistory | games/models.py:120-125 | saving a history entry appends it, stamped with the current time, and leaves the other rows as they were |
| Models.CreateHistoryKeepsInvariants | games/models.py:120-125 | a validated entry keeps every act in {1, 2, 3}; a clock that moves forward keeps the timestamps increasing |
| Models.HistoryRowsOf | games/models.py:121 | a game's history rows are exactly the rows for that game, each as many times as it occurs in the table, and no other row |
| Models.HistoryOf | games/models.py:127-128 | a game's history is all its entries and only them, oldest first |
| Models.HistoryRowsChronological | games/models.py:125 | keeping only one game's rows of a chronological table leaves them chronological |
| Models.HistoryInSaveOrder | games/models.py:125-128 | with entries stamped as they are saved, a game's history comes back in save order |

## Left out

- The chat-completion and image-generation calls, their prompts, model
  names and parameters (games/views.py:188-243, 288-315). The chat call's
  outcome is the `reply` parameter. `generate_image` is not part of this
  model: its URL only decides whether a download is attempted.
- Views.GenerateGameContent: the OpenAI client is built by
  `OpenAI(api_key=api_key)` at games/views.py:189, outside the `try`. An
  exception there reaches the view instead of giving the fallback package.
  The model assumes that construction succeeds.
- `json.loads` is the `parse` parameter. A text that starts with `{`,
  ends with `}` and parses is a JSON object, so `parse` returns objects.
- The HTTP download, the creation of the media folder and the writing of
  the file (games/views.py:324-335, 343-348) are the `download` and
  `written` parameters. Any exception in them gives no path.
- The Unicode tables behind `\w` and `\s` are abstract. `\s` agrees with
  `str.isspace()`, whose set `PyStr.IsSpace` lists; `PythonWhitespaceFits`
  connects the two.
- Views.BuildDraft: the views save the game, and each character or
  location as they go. When an item of `locations` has no `.get`, the game
  and its characters are already saved and the view raises. The model only
  reports `NotObjectList("locations")`. It does not model the partial save.
- Views.BuildDraft: values are kept as JSON values. The model does not
  model the `str()` coercion or the `max_length` checks that saving a
  non-string or an over-long value meets in the database.
- Views.ObjectItems: a value other than an array, a string or an object
  (a number, `true`, `null`) is refused. Python raises `TypeError` for it
  rather than `AttributeError`; both abort the view.
- Authentication, forms, templates, redirects, flash messages, `urls.py`
  and `admin.py`.
- Database ids, `auto_now` of `updated_at`, cascade deletion, and the
  `Character` and `Location` models beyond the fields the views fill.
- Field validation and `choices` are not enforced on save: Django's
  `save()` does not call `full_clean()`. `NarrativeErrors` is what
  validation reports. The act invariant holds for rows created through
  validation (`CreateChoiceKeepsActs`, `CreateHistoryKeepsInvariants`).
- A narrative progression (choosing a choice, moving to the next act, the
  dynamic-narrative switch) is described for the application but does not
  exist in its code: no view creates or reads narrative rows. The model
  follows the code and covers only the two models and their invariants.
- Ordering.SortBy: rows with equal timestamps keep their table order. A
  database may return ties in any order; this is one order it may choose.
- `str.split` with no argument, or with `maxsplit`, is not used by the
  application and is not modelled.
