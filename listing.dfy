/**
 * Decoding one anchor of the council's `.doc-list` into a planning
 * notice row. The anchor's visible text reads
 * `reference - address - description - closing date`.
 */
module Listing {
  import opened Wrappers
  import opened RubyText
  import opened Dates

  /** One `.doc-list a` anchor: its visible text, whether it holds an
      `img`, and its `href` attribute. */
  datatype Entry = Entry(text: string, hasImg: bool, href: string)

  /** The library calls the decoder makes: `Date.parse` (`None` when it
      raises) and resolving an `href` against the page's URI. */
  datatype Env = Env(parseDate: string -> Option<CivilDate>, resolve: string -> string)

  /** The columns the scraper writes for one application. */
  datatype Row = Row(
    councilReference: string,
    description: string,
    address: string,
    dateReceived: Option<string>,
    onNoticeTo: string,
    dateScraped: string,
    applicationUrl: string)

  /** Why an anchor produced no row. */
  datatype Skip = ImageLink | UnexpectedShape(name: string)

  const Separator: string := " - "
  const RegionSuffix: string := ", TAS"
  const InvalidDate: string := "Invalid Date"
  const FieldCount: nat := 4

  /** The anchor's text with surrounding whitespace stripped. */
  function Name(e: Entry): (name: string)
    ensures Trimmed(name)
    ensures name == [] <==> AllSpace(e.text)
  {
    Strip(e.text)
  }

  /** `name.split(' - ').map(&:strip)`. */
  function Pieces(name: string): (pieces: seq<string>)
    ensures |pieces| == |Split(name, Separator)|
    ensures forall i :: 0 <= i < |pieces| ==> Trimmed(pieces[i])
  {
    var fields := Split(name, Separator);
    seq(|fields|, i requires 0 <= i < |fields| => Strip(fields[i]))
  }

  /** The closing date as stored: the parsed date printed as
      `YYYY-MM-DD`, or the sentinel when parsing fails. */
  function ClosingDate(raw: string, env: Env): (r: string)
    ensures r == InvalidDate <==> env.parseDate(raw).None?
    ensures env.parseDate(raw).Some? ==> ParseIso(r) == Some(env.parseDate(raw).value)
  {
    match env.parseDate(raw)
    case Some(d) =>
      IsoRoundTrip(d);
      ToIso(d)
    case None => InvalidDate
  }

  /** The sentinel can never be mistaken for a printed date. */
  lemma SentinelIsNotDate()
    ensures !IsIsoDate(InvalidDate)
  {
    assert InvalidDate[|InvalidDate| - 6] == 'd';
  }

  /** Stripped text has no whitespace at either end. */
  predicate Trimmed(s: string) {
    s != [] ==> !IsSpace(s[0]) && !IsSpace(s[|s| - 1])
  }

  /** On stripped text, Ruby's `split` keeps every field of the plain scan. */
  lemma SplitTrimmed(name: string)
    requires Trimmed(name)
    ensures Split(name, Separator) == if name == [] then [] else SplitAll(name, Separator)
  {
    SplitNoTrailing(name, Separator);
  }

  /** Because the text is stripped before it is split, the first piece
      of a well-formed name is never empty. */
  lemma FirstPieceNonEmpty(name: string)
    requires Trimmed(name) && |Pieces(name)| == FieldCount
    ensures Pieces(name)[0] != [] && Trimmed(Pieces(name)[0])
  {
    SplitTrimmed(name);
    assert name != [];
    assert !StartsWith(name, Separator) by {
      assert name[0] != Separator[0];
    }
    FirstFieldStart(name, Separator);
    var f := SplitAll(name, Separator)[0];
    assert !AllSpace(f) by {
      assert !IsSpace(f[0]);
    }
  }

  /**
   * One iteration of the listing loop up to the insert: skip image
   * links, split the stripped text into four pieces, and map them onto
   * the row columns.
   */
  function Decode(e: Entry, dateScraped: string, env: Env): (r: Result<Row, Skip>)
    ensures e.hasImg ==> r == Err(ImageLink)
    ensures !e.hasImg ==> (r.Ok? <==> |Pieces(Name(e))| == FieldCount)
    ensures !e.hasImg && r.Err? ==> r.error == UnexpectedShape(Name(e))
    ensures r.Ok? ==> Trimmed(r.value.councilReference) && r.value.councilReference != []
    ensures r.Ok? ==> r.value.dateScraped == dateScraped && r.value.dateReceived == None
    ensures r.Ok? ==> r.value.onNoticeTo == InvalidDate || IsIsoDate(r.value.onNoticeTo)
    ensures r.Ok? ==> r.value.applicationUrl == env.resolve(e.href)
  {
    if e.hasImg then Err(ImageLink)
    else
      var name := Name(e);
      var s := Pieces(name);
      if |s| != FieldCount then Err(UnexpectedShape(name))
      else
        FirstPieceNonEmpty(name);
        Ok(Row(
          councilReference := s[0],
          description := s[2],
          address := s[1] + RegionSuffix,
          dateReceived := None,
          onNoticeTo := ClosingDate(s[3], env),
          dateScraped := dateScraped,
          applicationUrl := env.resolve(e.href)))
  }

  /** Four pieces of stripped text are the stripped fields of the plain
      scan, and those fields join back into the text. */
  lemma FourPieces(name: string)
    requires Trimmed(name) && |Pieces(name)| == FieldCount
    ensures var f := SplitAll(name, Separator);
      |f| == FieldCount && name == Join([f[0], f[1], f[2], f[3]], Separator) &&
      SeparatorFree([f[0], f[1], f[2], f[3]], Separator) &&
      forall i :: 0 <= i < FieldCount ==> Pieces(name)[i] == Strip(f[i])
  {
    SplitTrimmed(name);
    var f := SplitAll(name, Separator);
    JoinSplitAll(name, Separator);
    SplitAllFields(name, Separator);
    assert f == [f[0], f[1], f[2], f[3]];
  }

  /** Every decoded row comes from four separator-free raw pieces that,
      joined with the separator, give back the anchor's stripped text:
      the text is cut at each occurrence of the separator, leftmost
      first, and with `DecodeJoined` this fixes the row. */
  lemma DecodedFromPieces(e: Entry, dateScraped: string, env: Env)
    requires Decode(e, dateScraped, env).Ok?
    ensures var row := Decode(e, dateScraped, env).value;
      exists a, b, c, d ::
        Name(e) == Join([a, b, c, d], Separator) &&
        InnerField(a, Separator) && InnerField(b, Separator) && InnerField(c, Separator) &&
        LastField(d, Separator) &&
        row.councilReference == Strip(a) &&
        row.address == Strip(b) + RegionSuffix &&
        row.description == Strip(c) &&
        row.onNoticeTo == ClosingDate(Strip(d), env)
  {
    var name := Name(e);
    var p := Pieces(name);
    FourPieces(name);
    var f := SplitAll(name, Separator);
    var fs := [f[0], f[1], f[2], f[3]];
    assert SeparatorFree(fs, Separator);
    assert InnerField(fs[0], Separator) && InnerField(fs[1], Separator) && InnerField(fs[2], Separator);
    assert LastField(fs[3], Separator);
    var row := Decode(e, dateScraped, env).value;
    assert row.councilReference == p[0] && row.address == p[1] + RegionSuffix;
    assert row.description == p[2] && row.onNoticeTo == ClosingDate(p[3], env);
    assert p[0] == Strip(f[0]) && p[1] == Strip(f[1]) && p[2] == Strip(f[2]) && p[3] == Strip(f[3]);
  }

  /** Conversely, text made of four separator-free pieces decodes to
      exactly those pieces, stripped. */
  lemma DecodeJoined(e: Entry, dateScraped: string, env: Env, a: string, b: string, c: string, d: string)
    requires !e.hasImg
    requires Name(e) == Join([a, b, c, d], Separator)
    requires InnerField(a, Separator) && InnerField(b, Separator) && InnerField(c, Separator)
    requires LastField(d, Separator)
    ensures Decode(e, dateScraped, env) == Ok(Row(
      Strip(a), Strip(c), Strip(b) + RegionSuffix, None,
      ClosingDate(Strip(d), env), dateScraped, env.resolve(e.href)))
  {
    var fields := [a, b, c, d];
    SplitAllJoin(fields, Separator);
    SplitTrimmed(Name(e));
  }

  /** Whether an anchor decodes, and to which reference, depends only on
      the anchor: not on the run date, the date parser or the page URI. */
  lemma DecodeReferenceStable(e: Entry, date1: string, env1: Env, date2: string, env2: Env)
    ensures Decode(e, date1, env1).Ok? == Decode(e, date2, env2).Ok?
    ensures Decode(e, date1, env1).Ok? ==>
      Decode(e, date1, env1).value.councilReference == Decode(e, date2, env2).value.councilReference
  {
  }

  /** Every anchor of the listing decoded, in document order. */
  function DecodeAll(es: seq<Entry>, dateScraped: string, env: Env): seq<Result<Row, Skip>> {
    seq(|es|, i requires 0 <= i < |es| => Decode(es[i], dateScraped, env))
  }
}
