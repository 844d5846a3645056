/** pkg/obsidian.go, the note half: an Obsidian note, the Hugo front matter
    derived from it, the date extraction, and loading a note from a file. */
module ObsidianNote {
  import opened Wrappers
  import opened Texts
  import opened Paths
  import opened FrontMatter

  /** `ObsidianNote`: front matter, title and body. Its `Directory`
      back-reference is left out: nothing in the converter reads it. */
  datatype Note = Note(matter: Matter, title: string, content: string)

  /** A point in time as the external clock represents it. */
  type Instant = int

  /** Go's `time` package as far as the converter uses it: `time.Parse`,
      `time.ParseInLocation` in the configured time zone, and formatting an
      instant in UTC with the RFC 3339 layout. */
  datatype Clock = Clock(
    parse: (string, string) -> Option<Instant>,
    parseInZone: (string, string) -> Option<Instant>,
    formatUTC: Instant -> string)

  /** `obsidianDateFormats`: RFC 3339, date with seconds, date with minutes,
      date only, tried in this order. */
  const DateFormats: seq<string> :=
    ["2006-01-02T15:04:05Z07:00", "2006-01-02 15:04:05", "2006-01-02 15:04", "2006-01-02"]

  /** The front-matter keys that may carry a date, by priority. */
  const DateKeys: seq<string> := ["date updated", "date created"]

  /** A layout holding a `Z` carries its own offset and is parsed as is; the
      others are read in the configured time zone. */
  function ParseDate(clock: Clock, format: string, text: string): Option<Instant>
  {
    if 'Z' in format then clock.parse(format, text) else clock.parseInZone(format, text)
  }

  /** `extractDate`'s three outcomes: (nil, nil), (&d, nil) and (nil, err). */
  datatype DateResult = NoDate | DateFound(at: Instant) | UnsupportedDate(text: string)

  /** The text under the first key of `keys` the front matter has, "" if none. */
  function DateText(fm: Matter, keys: seq<string>): string
  {
    if keys == [] then ""
    else if Has(fm, keys[0]) then String(fm, keys[0])
    else DateText(fm, keys[1..])
  }

  /** Parsing `text` with the formats from index `i` on; the first that
      succeeds decides. */
  function ParseFrom(clock: Clock, text: string, i: nat): DateResult
    decreases |DateFormats| - i
  {
    if i >= |DateFormats| then UnsupportedDate(text)
    else match ParseDate(clock, DateFormats[i], text)
      case Some(d) => DateFound(d)
      case None => ParseFrom(clock, text, i + 1)
  }

  function DateOf(fm: Matter, clock: Clock): DateResult
  {
    var text := DateText(fm, DateKeys);
    if text == "" then NoDate else ParseFrom(clock, text, 0)
  }

  /** `extractDate`: a loop over the date keys that stops at the first one
      present, then a loop over the formats that returns at the first parse. */
  method ExtractDate(note: Note, clock: Clock) returns (r: DateResult)
    ensures r == DateOf(note.matter, clock)
  {
    var date := "";
    var i := 0;
    while i < |DateKeys|
      invariant 0 <= i <= |DateKeys|
      invariant date == "" && DateText(note.matter, DateKeys) == DateText(note.matter, DateKeys[i..])
    {
      assert DateKeys[i..][1..] == DateKeys[i + 1..];
      if Has(note.matter, DateKeys[i]) {
        date := String(note.matter, DateKeys[i]);
        break;
      }
      i := i + 1;
    }
    if date == "" {
      return NoDate;
    }
    var f := 0;
    while f < |DateFormats|
      invariant 0 <= f <= |DateFormats|
      invariant ParseFrom(clock, date, 0) == ParseFrom(clock, date, f)
    {
      var d := ParseDate(clock, DateFormats[f], date);
      if d.Some? {
        return DateFound(d.value);
      }
      f := f + 1;
    }
    return UnsupportedDate(date);
  }

  /** The first format that parses wins: the date found is the one of the
      lowest-index format that accepts the text, and there is none exactly
      when no format accepts it. */
  lemma {:induction false} ParseFromFirst(clock: Clock, text: string, i: nat, d: Instant)
    requires i <= |DateFormats|
    ensures ParseFrom(clock, text, i) == DateFound(d) <==>
      exists k :: i <= k < |DateFormats| && ParseDate(clock, DateFormats[k], text) == Some(d)
        && forall j :: i <= j < k ==> ParseDate(clock, DateFormats[j], text).None?
    ensures ParseFrom(clock, text, i).UnsupportedDate? <==>
      forall k :: i <= k < |DateFormats| ==> ParseDate(clock, DateFormats[k], text).None?
    decreases |DateFormats| - i
  {
    if i < |DateFormats| {
      ParseFromFirst(clock, text, i + 1, d);
    }
  }

  /** "date updated" wins over "date created" whenever it is present; with
      neither key, or an empty text, there is no date. */
  lemma DatePriority(fm: Matter, clock: Clock)
    ensures Has(fm, "date updated") ==> DateText(fm, DateKeys) == String(fm, "date updated")
    ensures !Has(fm, "date updated") && Has(fm, "date created") ==>
      DateText(fm, DateKeys) == String(fm, "date created")
    ensures !Has(fm, "date updated") && !Has(fm, "date created") ==> DateOf(fm, clock) == NoDate
    ensures DateOf(fm, clock) != NoDate ==> DateText(fm, DateKeys) != ""
  {
    assert DateKeys[1..] == ["date created"];
    assert DateKeys[0] == "date updated" && DateKeys[1..][0] == "date created";
    assert DateKeys[1..][1..] == [];
    if !Has(fm, "date updated") && !Has(fm, "date created") {
      assert DateText(fm, DateKeys) == DateText(fm, DateKeys[1..]) == DateText(fm, []);
    }
  }

  /** `HugoFrontMatter`, reference definition: the note's front matter,
      overridden by the added map, with the title forced, a date derived when
      none is set, and the aliases dropped. */
  function HugoMatter(note: Note, added: Matter, clock: Clock): Matter
  {
    var merged := note.matter + added;
    var titled := merged["title" := Str(note.title)];
    var dated :=
      if "date" in titled then titled
      else match DateOf(note.matter, clock)
        case DateFound(d) => titled["date" := Str(clock.formatUTC(d))]
        case _ => titled;
    dated - {"aliases"}
  }

  /** The Hugo front matter has the note's title and no aliases; every
      other key comes from the added map when it has it and from the note
      otherwise; a date is added, in UTC, exactly when neither map has one
      and the note's date is found. */
  lemma HugoMatterKeys(note: Note, added: Matter, clock: Clock)
    ensures var r := HugoMatter(note, added, clock);
      && "title" in r && r["title"] == Str(note.title)
      && "aliases" !in r
      && (forall k :: k != "title" && k != "aliases" && k != "date" ==>
           (k in r <==> k in note.matter || k in added))
      && (forall k :: k != "title" && k != "aliases" && k in added ==> k in r && r[k] == added[k])
      && (forall k :: k != "title" && k != "aliases" && k !in added && k in note.matter ==>
           k in r && r[k] == note.matter[k])
      && ("date" !in added && "date" !in note.matter ==>
           ("date" in r <==> DateOf(note.matter, clock).DateFound?)
           && ("date" in r ==> r["date"] == Str(clock.formatUTC(DateOf(note.matter, clock).at))))
  {
  }

  /** `HugoFrontMatter`: two copy loops over the maps, then the title, the
      date and the removal of the aliases. */
  method HugoFrontMatter(note: Note, added: Matter, clock: Clock) returns (hugo: Matter)
    ensures hugo == HugoMatter(note, added, clock)
  {
    hugo := CopyEntries(map[], note.matter);
    assert hugo == note.matter;
    hugo := CopyEntries(hugo, added);
    assert hugo == note.matter + added;

    // the note's title overrides any title from either map
    hugo := hugo["title" := Str(note.title)];

    // a date already present is kept; otherwise one is derived from the note
    if "date" !in hugo {
      var date := ExtractDate(note, clock);
      if date.DateFound? {
        hugo := hugo["date" := Str(clock.formatUTC(date.at))];
      }
    }

    hugo := hugo - {"aliases"};
  }

  /** One `for k, v := range from { hugo[k] = v }` loop: every entry of
      `from` is set, overriding what `hugo` had under the same key. */
  method CopyEntries(hugo: Matter, from: Matter) returns (r: Matter)
    ensures r.Keys == hugo.Keys + from.Keys
    ensures forall k :: k in from ==> r[k] == from[k]
    ensures forall k :: k in hugo && k !in from ==> r[k] == hugo[k]
  {
    r := hugo;
    var keys := from.Keys;
    while keys != {}
      invariant keys <= from.Keys
      invariant r == hugo + map k | k in from.Keys - keys :: from[k]
      decreases keys
    {
      var k :| k in keys;
      r := r[k := from[k]];
      keys := keys - {k};
    }
  }

  /** Why loading a note or a directory failed. */
  datatype LoadError = ReadError(path: string) | FrontMatterError(error: ParseError)

  /** `LoadObsidianNote`, reference definition: the file's text (None when it
      cannot be read) parsed into a note titled after the file. */
  function NoteOf(path: string, data: Option<string>, decode: Decoder): Result<Note, LoadError>
  {
    match data
    case None => Failure(ReadError(path))
    case Some(text) =>
      match Parsed(text, decode)
      case Failure(e) => Failure(FrontMatterError(e))
      case Success((fm, body)) => Success(Note(fm, Title(path), body))
  }

  method LoadObsidianNote(path: string, data: Option<string>, decode: Decoder)
    returns (r: Result<Note, LoadError>)
    ensures r == NoteOf(path, data, decode)
    ensures r.Success? ==> r.value.title + Ext(path) == Base(path)
  {
    if data.None? {
      return Failure(ReadError(path));
    }
    var parsed := ParseFrontMatterMarkdown(data.value, decode);
    if parsed.Failure? {
      return Failure(FrontMatterError(parsed.error));
    }
    var (matter, content) := parsed.value;
    var title := TrimSuffix(Base(path), Ext(path));
    TitleRoundTrip(path);
    return Success(Note(matter, title, content));
  }
}
