/**
 * The rules inside the game-creation views that do not depend on the network
 * or the file system: cutting the JSON object out of the chat reply, the
 * fixed package used when generation fails, the defaults for keys the
 * generated data lacks, and the file name and relative path under which a
 * downloaded image is stored.
 *
 * What the outside world contributes is a parameter: whether the API key is
 * set, what the chat call replied (or that it raised), how `json.loads`
 * parses a text, what the image download answered, whether writing the file
 * succeeded, and which characters the regular-expression classes `\w` and
 * `\s` match.
 */
module Views {
  import opened Wrappers
  import PyStr
  import Models

  // ---------------------------------------------------------------------------
  // JSON values

  datatype Json =
    | JNull
    | JBool(b: bool)
    | JNumber(n: real)
    | JString(s: string)
    | JArray(items: seq<Json>)
    | JObject(fields: map<string, Json>)

  type JsonObject = map<string, Json>

  // ---------------------------------------------------------------------------
  // Locating the JSON object in the chat reply

  /** A '{' before a '}' anywhere in the text puts the first '{' before the last '}'. */
  lemma BracesFound(text: string)
    ensures (exists i, j :: 0 <= i < j < |text| && text[i] == '{' && text[j] == '}') ==>
      PyStr.Find(text, '{') >= 0 && PyStr.RFind(text, '}') + 1 > PyStr.Find(text, '{')
  {
    forall i, j | 0 <= i < j < |text| && text[i] == '{' && text[j] == '}'
      ensures PyStr.Find(text, '{') >= 0 && PyStr.RFind(text, '}') + 1 > PyStr.Find(text, '{')
    {
      PyStr.FindIsFirst(text, '{', i);
      PyStr.RFindIsLast(text, '}', j);
    }
  }

  /** The span from the first '{' to a later last '}' opens and closes with them. */
  lemma BracesSpan(text: string, i: int, j: int)
    requires i == PyStr.Find(text, '{') && j == PyStr.RFind(text, '}') && 0 <= i < j
    ensures PyStr.FirstAt(text, '{', i) && PyStr.LastAt(text, '}', j)
    ensures exists i, j :: 0 <= i < j < |text| && text[i] == '{' && text[j] == '}'
    ensures var r := text[i..j + 1]; |r| >= 2 && r[0] == '{' && r[|r| - 1] == '}'
  {
    assert 0 <= i < j < |text| && text[i] == '{' && text[j] == '}';
  }

  /** The text from the first `{` to the last `}` of the reply, both included;
      nothing when the reply has no `{` followed somewhere later by a `}`. */
  function JsonSpan(text: string): (r: Option<string>)
    ensures r.Some? <==> exists i, j :: 0 <= i < j < |text| && text[i] == '{' && text[j] == '}'
    ensures r.Some? ==> exists i, j :: PyStr.FirstAt(text, '{', i) && PyStr.LastAt(text, '}', j) && i < j && r.value == text[i..j + 1]
    ensures r.Some? ==> |r.value| >= 2 && r.value[0] == '{' && r.value[|r.value| - 1] == '}'
  {
    var jsonStart := PyStr.Find(text, '{');
    var jsonEnd := PyStr.RFind(text, '}') + 1;
    BracesFound(text);
    if jsonStart >= 0 && jsonEnd > jsonStart then
      var last := jsonEnd - 1;
      BracesSpan(text, jsonStart, last);
      assert PyStr.FirstAt(text, '{', jsonStart) && PyStr.LastAt(text, '}', last) && jsonStart < last && text[jsonStart..jsonEnd] == text[jsonStart..last + 1];
      Some(text[jsonStart..jsonEnd])
    else None
  }

  // ---------------------------------------------------------------------------
  // Generating the game content

  /** What the chat-completion call gave: its message content, or an exception. */
  datatype ChatReply = Raised | Replied(content: string)

  function CharacterFields(name: string, role: string, background: string, abilities: string): JsonObject {
    map["name" := JString(name), "role" := JString(role), "background" := JString(background), "abilities" := JString(abilities)]
  }

  function LocationFields(name: string, description: string): JsonObject {
    map["name" := JString(name), "description" := JString(description)]
  }

  /** The fixed package returned whenever the reply cannot be used. */
  function FallbackPackage(): JsonObject {
    map[
      "title" := JString("Nouveau Jeu"),
      "universe_description" := JString("Un univers mystérieux à explorer."),
      "story_act1" := JString("Le début de l'aventure..."),
      "story_act2" := JString("Le coeur de l'histoire..."),
      "story_act3" := JString("La conclusion épique..."),
      "characters" := JArray([JObject(FallbackHero)]),
      "locations" := JArray([JObject(FallbackWorld)])
    ]
  }

  /** The one character of the fallback package. */
  const FallbackHero := CharacterFields("Héros", "Protagoniste principal", "Origine inconnue", "Détermination et courage")

  /** The one location of the fallback package. */
  const FallbackWorld := LocationFields("Monde initial", "Le point de départ de l'aventure")

  /** `generate_game_content`: nothing when the API key is unset or empty;
      otherwise the object parsed from the reply's JSON span, and the fallback
      package when the call raised, the reply holds no span, or the span does
      not parse. */
  function GenerateGameContent(apiKey: Option<string>, reply: ChatReply, parse: string -> Option<JsonObject>): (r: Option<JsonObject>)
    ensures r.None? <==> apiKey.None? || apiKey.value == []
    ensures r.Some? ==>
      || r.value == FallbackPackage()
      || (reply.Replied? && JsonSpan(reply.content).Some? && parse(JsonSpan(reply.content).value) == Some(r.value))
    ensures r.Some? && (reply.Raised? || JsonSpan(reply.content).None? || parse(JsonSpan(reply.content).value).None?) ==>
      r.value == FallbackPackage()
    ensures apiKey.Some? && apiKey.value != [] && reply.Replied? && JsonSpan(reply.content).Some?
            && parse(JsonSpan(reply.content).value).Some? ==>
      r == parse(JsonSpan(reply.content).value)
  {
    if apiKey.None? || apiKey.value == [] then None
    else
      match reply
      case Raised => Some(FallbackPackage())
      case Replied(text) =>
        match JsonSpan(text)
        case None => Some(FallbackPackage())
        case Some(jsonText) =>
          match parse(jsonText)
          case Some(generated) => Some(generated)
          case None => Some(FallbackPackage())
  }

  // ---------------------------------------------------------------------------
  // Filling in the records from the generated data

  /** The defaults one view uses for missing keys. */
  datatype Defaults = Defaults(title: string, characterName: string, locationName: string)

  /** The defaults of `create_game`. */
  const CreateDefaults := Defaults("Untitled Game", "Unknown Character", "Unknown Location")

  /** The defaults of `random_game`. */
  const RandomDefaults := Defaults("Random Game", "Random Character", "Random Location")

  /** `v` is what the data holds under `key`, or `default` when the key is missing. */
  predicate Defaulted(data: JsonObject, key: string, default: Json, v: Json) {
    (key in data ==> v == data[key]) && (key !in data ==> v == default)
  }

  /** `data.get(key, default)`. */
  function Get(data: JsonObject, key: string, default: Json): (r: Json)
    ensures Defaulted(data, key, default, r)
  {
    if key in data then data[key] else default
  }

  datatype CharacterDraft = CharacterDraft(name: Json, role: Json, background: Json, abilities: Json)

  datatype LocationDraft = LocationDraft(name: Json, description: Json)

  datatype GameDraft = GameDraft(
    title: Json,
    universeDescription: Json,
    storyAct1: Json,
    storyAct2: Json,
    storyAct3: Json,
    characters: seq<CharacterDraft>,
    locations: seq<LocationDraft>)

  /** Why a view did not produce a game. */
  datatype DraftError =
    | GenerationFailed          // no data, or an empty object
    | NotObjectList(key: string) // iterating the value, an item had no `.get`

  /** The objects a `for item in value: item.get(...)` loop visits: the items of
      an array whose items are all objects; nothing at all for an empty string
      or an empty object; and an error for anything else (a non-object item, a
      character of a string, a key of an object, or a value that cannot be
      iterated). */
  function ObjectItems(v: Json): (r: Option<seq<JsonObject>>)
    ensures r.Some? && v.JArray? ==> |r.value| == |v.items| && forall i :: 0 <= i < |r.value| ==> v.items[i] == JObject(r.value[i])
    ensures r.Some? && !v.JArray? ==> r.value == [] && (v == JString([]) || v == JObject(map[]))
    ensures v.JArray? && (forall i :: 0 <= i < |v.items| ==> v.items[i].JObject?) ==> r.Some?
    ensures v == JString([]) || v == JObject(map[]) ==> r == Some([])
  {
    match v
    case JArray(items) =>
      if forall i :: 0 <= i < |items| ==> items[i].JObject? then
        Some(seq(|items|, i requires 0 <= i < |items| => items[i].fields))
      else None
    case JString(s) => if s == [] then Some([]) else None
    case JObject(m) => if m == map[] then Some([]) else None
    case _ => None
  }

  /** Each field of the character is the item's value for its key, or the default. */
  predicate CharacterDefaulted(item: JsonObject, d: Defaults, c: CharacterDraft) {
    && Defaulted(item, "name", JString(d.characterName), c.name)
    && Defaulted(item, "role", JString("Unknown Role"), c.role)
    && Defaulted(item, "background", JString(""), c.background)
    && Defaulted(item, "abilities", JString(""), c.abilities)
  }

  /** Each field of the location is the item's value for its key, or the default. */
  predicate LocationDefaulted(item: JsonObject, d: Defaults, l: LocationDraft) {
    && Defaulted(item, "name", JString(d.locationName), l.name)
    && Defaulted(item, "description", JString(""), l.description)
  }

  /** The character built from one item of `characters`. */
  function CharacterFrom(item: JsonObject, d: Defaults): (c: CharacterDraft)
    ensures CharacterDefaulted(item, d, c)
  {
    CharacterDraft(
      Get(item, "name", JString(d.characterName)),
      Get(item, "role", JString("Unknown Role")),
      Get(item, "background", JString("")),
      Get(item, "abilities", JString("")))
  }

  /** The location built from one item of `locations`. */
  function LocationFrom(item: JsonObject, d: Defaults): (l: LocationDraft)
    ensures LocationDefaulted(item, d, l)
  {
    LocationDraft(
      Get(item, "name", JString(d.locationName)),
      Get(item, "description", JString("")))
  }

  /** The game, characters and locations `create_game` or `random_game` builds
      from the generated data (`if game_data:` treats no data and an empty
      object alike). Every field is the generated value for its key or, when
      the key is missing, the view's default; there is one character per
      character object and one location per location object, in order. */
  function BuildDraft(gameData: Option<JsonObject>, d: Defaults): (r: Result<GameDraft, DraftError>)
    ensures r == Failure(GenerationFailed) <==> gameData.None? || gameData.value == map[]
    ensures r.Success? <==>
      && gameData.Some? && gameData.value != map[]
      && ObjectItems(Get(gameData.value, "characters", JArray([]))).Some?
      && ObjectItems(Get(gameData.value, "locations", JArray([]))).Some?
    ensures r == Failure(NotObjectList("characters")) <==>
      && gameData.Some? && gameData.value != map[]
      && ObjectItems(Get(gameData.value, "characters", JArray([]))).None?
    ensures r.Success? ==>
      var data := gameData.value;
      && Defaulted(data, "title", JString(d.title), r.value.title)
      && Defaulted(data, "universe_description", JString(""), r.value.universeDescription)
      && Defaulted(data, "story_act1", JString(""), r.value.storyAct1)
      && Defaulted(data, "story_act2", JString(""), r.value.storyAct2)
      && Defaulted(data, "story_act3", JString(""), r.value.storyAct3)
    ensures r.Success? ==>
      var items := ObjectItems(Get(gameData.value, "characters", JArray([])));
      && items.Some? && |r.value.characters| == |items.value|
      && forall i :: 0 <= i < |items.value| ==> CharacterDefaulted(items.value[i], d, r.value.characters[i])
    ensures r.Success? ==>
      var items := ObjectItems(Get(gameData.value, "locations", JArray([])));
      && items.Some? && |r.value.locations| == |items.value|
      && forall i :: 0 <= i < |items.value| ==> LocationDefaulted(items.value[i], d, r.value.locations[i])
  {
    if gameData.None? || gameData.value == map[] then Failure(GenerationFailed)
    else
      var data := gameData.value;
      match ObjectItems(Get(data, "characters", JArray([])))
      case None => Failure(NotObjectList("characters"))
      case Some(chars) =>
        match ObjectItems(Get(data, "locations", JArray([])))
        case None => Failure(NotObjectList("locations"))
        case Some(locs) =>
          Success(GameDraft(
            Get(data, "title", JString(d.title)),
            Get(data, "universe_description", JString("")),
            Get(data, "story_act1", JString("")),
            Get(data, "story_act2", JString("")),
            Get(data, "story_act3", JString("")),
            seq(|chars|, i requires 0 <= i < |chars| => CharacterFrom(chars[i], d)),
            seq(|locs|, i requires 0 <= i < |locs| => LocationFrom(locs[i], d))))
  }

  /** The character and location lists of the fallback package each hold one object. */
  lemma FallbackItems()
    ensures ObjectItems(Get(FallbackPackage(), "characters", JArray([]))) == Some([FallbackHero])
    ensures ObjectItems(Get(FallbackPackage(), "locations", JArray([]))) == Some([FallbackWorld])
  {
    assert Get(FallbackPackage(), "characters", JArray([])) == JArray([JObject(FallbackHero)]);
    assert Get(FallbackPackage(), "locations", JArray([])) == JArray([JObject(FallbackWorld)]);
    var chars := ObjectItems(JArray([JObject(FallbackHero)]));
    assert chars.Some? && |chars.value| == 1 && JObject(chars.value[0]) == JObject(FallbackHero);
    assert chars.value == [FallbackHero];
    var locs := ObjectItems(JArray([JObject(FallbackWorld)]));
    assert locs.Some? && |locs.value| == 1 && JObject(locs.value[0]) == JObject(FallbackWorld);
    assert locs.value == [FallbackWorld];
  }

  /** A game without a title, and a character or location item without a
      name, get the placeholder of the view that builds them: "Untitled Game",
      "Unknown Character" and "Unknown Location" in `create_game`, "Random
      Game", "Random Character" and "Random Location" in `random_game`. */
  lemma PlaceholderNames(data: JsonObject, d: Defaults)
    requires d == CreateDefaults || d == RandomDefaults
    requires BuildDraft(Some(data), d).Success?
    ensures var g := BuildDraft(Some(data), d).value;
      && ("title" !in data ==>
            g.title == JString(if d == CreateDefaults then "Untitled Game" else "Random Game"))
      && (forall i :: 0 <= i < |g.characters| && "name" !in ObjectItems(Get(data, "characters", JArray([]))).value[i] ==>
            g.characters[i].name == JString(if d == CreateDefaults then "Unknown Character" else "Random Character"))
      && (forall i :: 0 <= i < |g.locations| && "name" !in ObjectItems(Get(data, "locations", JArray([]))).value[i] ==>
            g.locations[i].name == JString(if d == CreateDefaults then "Unknown Location" else "Random Location"))
  {
  }

  /** The fallback package builds a game titled "Nouveau Jeu" with exactly one
      character, "Héros", and exactly one location, "Monde initial". */
  lemma FallbackDraft(d: Defaults)
    ensures BuildDraft(Some(FallbackPackage()), d).Success?
    ensures var g := BuildDraft(Some(FallbackPackage()), d).value;
      && g.title == JString("Nouveau Jeu")
      && |g.characters| == 1 && g.characters[0].name == JString("Héros")
      && |g.locations| == 1 && g.locations[0].name == JString("Monde initial")
  {
    assert "title" in FallbackPackage();
    FallbackItems();
    assert "name" in FallbackHero && "name" in FallbackWorld;
  }

  /** With the API key set, a view reports a failed generation only when the
      reply's JSON span parses to an empty object: every other failure is
      covered by the fallback package. */
  lemma GenerationFailsOnlyWithoutData(apiKey: Option<string>, reply: ChatReply, parse: string -> Option<JsonObject>, d: Defaults)
    ensures BuildDraft(GenerateGameContent(apiKey, reply, parse), d) == Failure(GenerationFailed) <==>
      || apiKey.None? || apiKey.value == []
      || (reply.Replied? && JsonSpan(reply.content).Some? && parse(JsonSpan(reply.content).value) == Some(map[]))
  {
    assert "title" in FallbackPackage();
  }

  // ---------------------------------------------------------------------------
  // Image file names and paths

  /** The two regular-expression character classes the sanitiser uses, as
      predicates: `\w` (word characters) and `\s` (whitespace). */
  datatype CharClasses = CharClasses(word: char -> bool, space: char -> bool)

  /** What is known of the two classes: ASCII letters, digits and `_` are word
      characters and not whitespace; `.` and `-` are not whitespace; `/` is
      not a word character; the space character is whitespace. */
  predicate KnownClasses(cls: CharClasses) {
    && cls.word('_') && !cls.space('_')
    && cls.space(' ')
    && (forall c :: 'a' <= c <= 'z' ==> cls.word(c) && !cls.space(c))
    && (forall c :: 'A' <= c <= 'Z' ==> cls.word(c) && !cls.space(c))
    && (forall c :: '0' <= c <= '9' ==> cls.word(c) && !cls.space(c))
    && !cls.space('.') && !cls.space('-')
    && !cls.word('/')
  }

  /** `\s` in a `str` pattern is the whitespace of `str.isspace()`; with it,
      any word class that has the listed word characters fits. */
  lemma PythonWhitespaceFits(word: char -> bool)
    requires word('_') && !word('/')
    requires forall c :: ('a' <= c <= 'z' || 'A' <= c <= 'Z' || '0' <= c <= '9') ==> word(c)
    ensures KnownClasses(CharClasses(word, PyStr.IsSpace))
  {
  }

  /** The characters `[\w\s.-]` matches. */
  predicate Kept(cls: CharClasses, c: char) {
    cls.word(c) || cls.space(c) || c == '.' || c == '-'
  }

  /** Every character of `s` is one `[\w\s.-]` matches. */
  predicate AllKept(cls: CharClasses, s: string) {
    forall i :: 0 <= i < |s| ==> Kept(cls, s[i])
  }

  /** `s` holds no whitespace. */
  predicate NoSpace(cls: CharClasses, s: string) {
    forall i :: 0 <= i < |s| ==> !cls.space(s[i])
  }

  /** `s` is made of whitespace only. */
  predicate OnlySpace(cls: CharClasses, s: string) {
    forall i :: 0 <= i < |s| ==> cls.space(s[i])
  }

  /** `re.sub(r'[^\w\s.-]', '', s)`: every character outside the class removed. */
  function RemoveUnsafe(cls: CharClasses, s: string): (r: string)
    ensures |r| <= |s|
  {
    if s == [] then []
    else if Kept(cls, s[0]) then [s[0]] + RemoveUnsafe(cls, s[1..])
    else RemoveUnsafe(cls, s[1..])
  }

  /** Removing unsafe characters keeps exactly the characters of the class. */
  lemma {:induction false} RemoveUnsafeChars(cls: CharClasses, s: string)
    ensures forall c :: c in RemoveUnsafe(cls, s) <==> c in s && Kept(cls, c)
  {
    if s != [] {
      RemoveUnsafeChars(cls, s[1..]);
      assert s == [s[0]] + s[1..];
    }
  }

  /** `re.sub(r'\s+', '_', ...)` applied to the part `s` of a string whose
      character just before `s` was whitespace exactly when `afterSpace`:
      a whitespace run yields one `_` where it starts, nothing after that. */
  function CollapseFrom(cls: CharClasses, s: string, afterSpace: bool): (r: string)
    ensures |r| <= |s|
  {
    if s == [] then []
    else if !cls.space(s[0]) then [s[0]] + CollapseFrom(cls, s[1..], false)
    else if afterSpace then CollapseFrom(cls, s[1..], true)
    else "_" + CollapseFrom(cls, s[1..], true)
  }

  /** `re.sub(r'\s+', '_', s)`: each maximal run of whitespace replaced by one `_`. */
  function CollapseSpaces(cls: CharClasses, s: string): (r: string)
    ensures |r| <= |s|
  {
    CollapseFrom(cls, s, false)
  }

  /** Whether the last character seen after scanning `s` was whitespace. */
  function EndsInSpace(cls: CharClasses, s: string, afterSpace: bool): bool {
    if s == [] then afterSpace else cls.space(s[|s| - 1])
  }

  /** Collapsing leaves only `_` and the non-whitespace characters of the input. */
  lemma {:induction false} CollapseChars(cls: CharClasses, s: string, afterSpace: bool)
    ensures forall c :: c in CollapseFrom(cls, s, afterSpace) ==> c == '_' || (c in s && !cls.space(c))
  {
    if s != [] {
      CollapseChars(cls, s[1..], cls.space(s[0]));
      assert s == [s[0]] + s[1..];
    }
  }

  /** The file name `download_and_save_image` writes to: characters other than
      word characters, whitespace, `.` and `-` removed, then whitespace runs
      turned into `_`. When `_` is a word character and not whitespace, it
      holds no whitespace and only word characters, `.` and `-`; it is never
      longer than the given name. */
  function SafeFileName(cls: CharClasses, filename: string): (r: string)
    ensures |r| <= |filename|
    ensures cls.word('_') && !cls.space('_') ==>
      forall i :: 0 <= i < |r| ==> !cls.space(r[i]) && (cls.word(r[i]) || r[i] == '.' || r[i] == '-')
  {
    var kept := RemoveUnsafe(cls, filename);
    RemoveUnsafeChars(cls, filename);
    CollapseChars(cls, kept, false);
    var r := CollapseSpaces(cls, kept);
    assert forall i :: 0 <= i < |r| ==> r[i] in r;
    r
  }

  lemma {:induction false} RemoveUnsafeKeepsSafe(cls: CharClasses, s: string)
    requires AllKept(cls, s)
    ensures RemoveUnsafe(cls, s) == s
  {
    if s != [] {
      assert AllKept(cls, s[1..]);
      RemoveUnsafeKeepsSafe(cls, s[1..]);
    }
  }

  lemma {:induction false} CollapseWithoutSpaces(cls: CharClasses, s: string, afterSpace: bool)
    requires NoSpace(cls, s)
    ensures CollapseFrom(cls, s, afterSpace) == s
  {
    if s != [] {
      assert NoSpace(cls, s[1..]);
      CollapseWithoutSpaces(cls, s[1..], false);
    }
  }

  /** Sanitising an already sanitised name changes nothing. */
  lemma SafeFileNameIdempotent(cls: CharClasses, filename: string)
    requires cls.word('_') && !cls.space('_')
    ensures SafeFileName(cls, SafeFileName(cls, filename)) == SafeFileName(cls, filename)
  {
    var r := SafeFileName(cls, filename);
    assert AllKept(cls, r);
    RemoveUnsafeKeepsSafe(cls, r);
    CollapseWithoutSpaces(cls, r, false);
  }

  lemma {:induction false} RemoveUnsafeAppend(cls: CharClasses, a: string, b: string)
    ensures RemoveUnsafe(cls, a + b) == RemoveUnsafe(cls, a) + RemoveUnsafe(cls, b)
  {
    if a == [] {
      assert a + b == b;
    } else {
      var ab := a + b;
      assert ab[0] == a[0] && ab[1..] == a[1..] + b;
      RemoveUnsafeAppend(cls, a[1..], b);
    }
  }

  /** Collapsing a concatenation is collapsing the first part, then the second
      part knowing how the first part ended. */
  lemma {:induction false} CollapseFromAppend(cls: CharClasses, a: string, b: string, afterSpace: bool)
    ensures CollapseFrom(cls, a + b, afterSpace)
         == CollapseFrom(cls, a, afterSpace) + CollapseFrom(cls, b, EndsInSpace(cls, a, afterSpace))
  {
    if a == [] {
      assert a + b == b;
    } else {
      var ab := a + b;
      assert ab[0] == a[0] && ab[1..] == a[1..] + b;
      var next := cls.space(a[0]);
      CollapseFromAppend(cls, a[1..], b, next);
      assert EndsInSpace(cls, a[1..], next) == EndsInSpace(cls, a, afterSpace);
    }
  }

  /** A whitespace run never crosses a boundary next to a non-whitespace
      character, so collapsing distributes over such a concatenation. */
  lemma CollapseAppend(cls: CharClasses, a: string, b: string)
    requires a == [] || b == [] || !cls.space(a[|a| - 1]) || !cls.space(b[0])
    ensures CollapseSpaces(cls, a + b) == CollapseSpaces(cls, a) + CollapseSpaces(cls, b)
  {
    CollapseFromAppend(cls, a, b, false);
    if b != [] && EndsInSpace(cls, a, false) {
      assert !cls.space(b[0]);
      assert CollapseFrom(cls, b, true) == [b[0]] + CollapseFrom(cls, b[1..], false);
    }
  }
  /** A whitespace run yields nothing once inside a run, and one `_` when it starts one. */
  lemma {:induction false} CollapseSpaceRun(cls: CharClasses, w: string)
    requires OnlySpace(cls, w)
    ensures CollapseFrom(cls, w, true) == []
    ensures w != [] ==> CollapseFrom(cls, w, false) == "_"
  {
    if w != [] {
      assert OnlySpace(cls, w[1..]);
      CollapseSpaceRun(cls, w[1..]);
    }
  }

  /** A maximal whitespace run between two parts becomes exactly one `_`. */
  lemma CollapseRun(cls: CharClasses, a: string, w: string, b: string)
    requires w != [] && OnlySpace(cls, w)
    requires a == [] || !cls.space(a[|a| - 1])
    requires b == [] || !cls.space(b[0])
    ensures CollapseSpaces(cls, a + w + b) == CollapseSpaces(cls, a) + "_" + CollapseSpaces(cls, b)
  {
    assert a + w + b == a + (w + b);
    CollapseFromAppend(cls, a, w + b, false);
    CollapseFromAppend(cls, w, b, false);
    CollapseSpaceRun(cls, w);
    assert EndsInSpace(cls, w, false);
  }


  /** The name a view gives a downloaded image: `f"{prefix}{name}.jpg"`. */
  function ImageFileName(prefix: string, name: string): (r: string)
    ensures |r| == |prefix| + |name| + 4
    ensures r[..|prefix|] == prefix && r[|prefix|..|prefix| + |name|] == name && r[|prefix| + |name|..] == ".jpg"
  {
    prefix + name + ImageExtension
  }

  const CharacterImagePrefix := "character_"
  const LocationImagePrefix := "location_"
  const ImageExtension := ".jpg"

  lemma FixedPartsSafe(cls: CharClasses)
    requires KnownClasses(cls)
    ensures AllKept(cls, CharacterImagePrefix) && NoSpace(cls, CharacterImagePrefix)
    ensures AllKept(cls, LocationImagePrefix) && NoSpace(cls, LocationImagePrefix)
    ensures AllKept(cls, ImageExtension) && NoSpace(cls, ImageExtension)
  {
  }

  /** A character or location image keeps its prefix and its `.jpg` extension
      through sanitising; only the name between them is cleaned. */
  lemma SafeImageFileName(cls: CharClasses, prefix: string, name: string)
    requires KnownClasses(cls)
    requires prefix == CharacterImagePrefix || prefix == LocationImagePrefix
    ensures SafeFileName(cls, ImageFileName(prefix, name)) == prefix + SafeFileName(cls, name) + ImageExtension
  {
    FixedPartsSafe(cls);
    var m := RemoveUnsafe(cls, name);
    KeptAround(cls, prefix, name, ImageExtension);
    CollapsedAround(cls, prefix, m, ImageExtension);
  }

  /** Removing unsafe characters leaves all-kept outer parts in place. */
  lemma KeptAround(cls: CharClasses, p: string, s: string, q: string)
    requires AllKept(cls, p) && AllKept(cls, q)
    ensures RemoveUnsafe(cls, p + s + q) == p + RemoveUnsafe(cls, s) + q
  {
    assert p + s + q == p + (s + q);
    RemoveUnsafeAppend(cls, p, s + q);
    RemoveUnsafeAppend(cls, s, q);
    RemoveUnsafeKeepsSafe(cls, p);
    RemoveUnsafeKeepsSafe(cls, q);
  }

  /** Collapsing whitespace leaves non-empty whitespace-free outer parts in place. */
  lemma CollapsedAround(cls: CharClasses, p: string, s: string, q: string)
    requires p != [] && q != [] && NoSpace(cls, p) && NoSpace(cls, q)
    ensures CollapseSpaces(cls, p + s + q) == p + CollapseSpaces(cls, s) + q
  {
    assert p + s + q == p + (s + q);
    CollapseAppend(cls, p, s + q);
    CollapseAppend(cls, s, q);
    CollapseWithoutSpaces(cls, p, false);
    CollapseWithoutSpaces(cls, q, false);
  }


  /** What the image download gave: an HTTP status, or an exception. */
  datatype Download = DownloadRaised | Downloaded(status: int)

  /** `download_and_save_image`: nothing unless the download answered 200 and
      the file was written; then the relative path `subfolder/safe_name`. */
  function DownloadAndSaveImage(cls: CharClasses, download: Download, written: bool, filename: string, subfolder: string): (r: Option<string>)
    ensures r.Some? <==> download == Downloaded(200) && written
    ensures r.Some? ==> r.value == subfolder + "/" + SafeFileName(cls, filename)
  {
    if download.DownloadRaised? || download.status != 200 then None
    else if !written then None
    else Some(subfolder + "/" + SafeFileName(cls, filename))
  }

  /** A returned path names a file directly inside the subfolder: what follows
      `subfolder/` holds no `/` and no whitespace. */
  lemma ImagePathInSubfolder(cls: CharClasses, download: Download, written: bool, filename: string, subfolder: string)
    requires KnownClasses(cls)
    requires DownloadAndSaveImage(cls, download, written, filename, subfolder).Some?
    ensures var p := DownloadAndSaveImage(cls, download, written, filename, subfolder).value;
      && |p| > |subfolder| && p[..|subfolder| + 1] == subfolder + "/"
      && '/' !in p[|subfolder| + 1..]
      && forall i :: |subfolder| < i < |p| ==> !cls.space(p[i])
  {
    var p := DownloadAndSaveImage(cls, download, written, filename, subfolder).value;
    var n := SafeFileName(cls, filename);
    assert p[|subfolder| + 1..] == n;
    forall i | |subfolder| < i < |p| ensures !cls.space(p[i]) {
      assert p[i] == n[i - |subfolder| - 1];
    }
  }

  /** Different names can share one image file: "a b", "a  b" and "a_b" are
      all stored as "a_b", so a later image overwrites an earlier one. */
  lemma ImageNamesCollide(cls: CharClasses)
    requires KnownClasses(cls)
    ensures SafeFileName(cls, "a b") == "a_b"
    ensures SafeFileName(cls, "a  b") == "a_b"
    ensures SafeFileName(cls, "a_b") == "a_b"
  {
    assert 'a' <= 'a' <= 'z' && 'a' <= 'b' <= 'z';
    RemoveUnsafeKeepsSafe(cls, "a b");
    RemoveUnsafeKeepsSafe(cls, "a  b");
    RemoveUnsafeKeepsSafe(cls, "a_b");
    assert "a b"[1..] == " b" && " b"[1..] == "b";
    assert "a  b"[1..] == "  b" && "  b"[1..] == " b";
    assert CollapseFrom(cls, " b", true) == CollapseFrom(cls, "b", true);
    assert CollapseFrom(cls, " b", false) == "_" + CollapseFrom(cls, "b", true);
    assert CollapseFrom(cls, "  b", false) == "_" + CollapseFrom(cls, " b", true);
    CollapseWithoutSpaces(cls, "b", true);
    CollapseWithoutSpaces(cls, "a_b", false);
  }

  // ---------------------------------------------------------------------------
  // The random game

  /** `random_game` uses the first genre, the first ambiance and fixed keywords. */
  const RandomGenre := Models.GenreChoices[0].0
  const RandomAmbiance := Models.AmbianceChoices[0].0
  const RandomKeywords := "adventure, mystery, magic"

  /** `RandomKeywords.split(',')`. */
  lemma RandomKeywordPieces()
    ensures PyStr.Split(RandomKeywords, ",") == ["adventure", " mystery", " magic"]
  {
    assert RandomKeywords == "adventure" + [','] + " mystery" + [','] + " magic";
    PyStr.SplitThree("adventure", " mystery", " magic", ',');
  }

  /** The three pieces of `RandomKeywords` stripped. */
  lemma RandomKeywordsStripped()
    ensures PyStr.Strip("adventure") == "adventure"
    ensures PyStr.Strip(" mystery") == "mystery"
    ensures PyStr.Strip(" magic") == "magic"
  {
    PyStr.StripWord("adventure");
    assert " mystery" == [' '] + "mystery";
    PyStr.StripWord("mystery");
    assert " magic" == [' '] + "magic";
    PyStr.StripWord("magic");
  }

  /** The keyword list of a random game is its three keywords, without the
      spaces after the commas. */
  lemma RandomKeywordList(g: Models.Game)
    requires g.keywords == RandomKeywords
    ensures Models.KeywordList(g) == ["adventure", "mystery", "magic"]
  {
    assert g.keywords != [];
    RandomKeywordPieces();
    Models.StripEachThree("adventure", " mystery", " magic");
    RandomKeywordsStripped();
  }

  /** A random game is shown as an RPG with a post-apocalyptic ambiance. */
  lemma RandomGameLabels(g: Models.Game)
    requires g.genre == RandomGenre && g.ambiance == RandomAmbiance
    ensures Models.GenreName(g) == "RPG" && Models.AmbianceName(g) == "Post-Apocalyptic"
  {
  }
}
