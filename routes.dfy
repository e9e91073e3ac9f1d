/**
  The two API routes of server/routes.ts: `POST /api/flames` validates the two names,
  computes the FLAMES letter and the compatibility score, answers with both and the
  letter's relationship and description, and appends the calculation to the store;
  `GET /api/flames/recent` returns the ten most recent calculations.

  The request body is modelled after JSON parsing, as the two fields the schema reads
  (shared/schema.ts, lines 40-43); the clock reading `new Date()` is a parameter.
*/
module Routes {
  import opened Wrappers
  import Reducer
  import Compatibility
  import Details
  import Storage

  /** Lines 9-16. */
  const FLAMES_RELATIONSHIPS: map<string, string> := map[
    "F" := "Friends", "L" := "Love", "A" := "Affection",
    "M" := "Marriage", "E" := "Crush", "S" := "Besties"
  ]

  /** Lines 18-25. */
  const FLAMES_DESCRIPTIONS: map<string, string> := map[
    "F" := "You two have a solid foundation for a great friendship. Enjoy the casual bond you share!",
    "L" := "There's a strong romantic connection between you two. The stars align in your favor!",
    "A" := "There's a warm affectionate bond between you. You care deeply for each other.",
    "M" := "Your compatibility suggests a long-term commitment. You could be great life partners!",
    "E" := "You might have a secret crush on each other! There's definitely some chemistry here.",
    "S" := "You're the ultimate besties! Your connection is unmatched and your friendship is goals!"
  ]

  /** A property read on one of the tables: `undefined` (None) for a key it does not hold. */
  function Lookup(table: map<string, string>, key: string): (r: Option<string>)
    ensures r.Some? <==> key in table
  {
    if key in table then Some(table[key]) else None
  }

  /** The server's tables say for every letter what the client's `FLAMES_DETAILS` says. */
  lemma TablesAgree(letter: string)
    ensures Lookup(FLAMES_RELATIONSHIPS, letter).Some? <==> Details.DetailFor(letter).Some?
    ensures Details.DetailFor(letter).Some? ==>
      Lookup(FLAMES_RELATIONSHIPS, letter).value == Details.DetailFor(letter).value.relationship
      && Lookup(FLAMES_DESCRIPTIONS, letter).value == Details.DetailFor(letter).value.description
  {
  }

  // ---------------------------------------------------------------------------------------
  // Validating the request
  // ---------------------------------------------------------------------------------------

  /** A field of the parsed JSON body: missing, a string, or a value of another type. */
  datatype Field = Absent | Text(text: string) | NotText

  datatype Body = Body(name1: Field, name2: Field)

  datatype IssueCode = InvalidType | TooSmall | TooBig

  /** One finding of the schema, with the key it is about. */
  datatype Issue = Issue(path: string, code: IssueCode)

  datatype FlamesRequest = FlamesRequest(name1: string, name2: string)

  /** `z.string().min(1).max(30)`: a string of 1 to 30 characters. */
  predicate ValidName(f: Field)
  {
    f.Text? && 1 <= |f.text| <= 30
  }

  function FieldIssues(path: string, f: Field): (r: seq<Issue>)
    ensures |r| <= 1
    ensures r == [] <==> ValidName(f)
    ensures forall i :: 0 <= i < |r| ==> r[i].path == path
  {
    match f
    case Text(s) =>
      if |s| < 1 then [Issue(path, TooSmall)]
      else if |s| > 30 then [Issue(path, TooBig)]
      else []
    case _ => [Issue(path, InvalidType)]
  }

  /**
    `flamesRequestSchema.parse(req.body)` (line 32): the request when both names are valid;
    otherwise every issue found, those of `name1` before those of `name2`.
  */
  function ParseRequest(body: Body): (r: Result<FlamesRequest, seq<Issue>>)
    ensures r.Ok? <==> ValidName(body.name1) && ValidName(body.name2)
    ensures r.Ok? ==> r.value == FlamesRequest(body.name1.text, body.name2.text)
    ensures r.Err? ==> |r.error| == (if ValidName(body.name1) then 0 else 1) + (if ValidName(body.name2) then 0 else 1)
    ensures r.Err? ==> forall i :: 0 <= i < |r.error| ==> r.error[i].path == "name1" || r.error[i].path == "name2"
  {
    var issues := FieldIssues("name1", body.name1) + FieldIssues("name2", body.name2);
    if issues == [] then Ok(FlamesRequest(body.name1.text, body.name2.text))
    else Err(issues)
  }

  // ---------------------------------------------------------------------------------------
  // The answer and the history entry
  // ---------------------------------------------------------------------------------------

  /** The response object; a table read that finds nothing leaves its field `undefined` (None). */
  datatype FlamesResponse = FlamesResponse(
    name1: string,
    name2: string,
    result: string,
    relationship: Option<string>,
    compatibility: int,
    description: Option<string>)

  /** `flamesResponseSchema` (shared/schema.ts, lines 48-55). */
  predicate ConformsToResponseSchema(r: FlamesResponse)
  {
    r.result in Reducer.FLAMES && r.relationship.Some? && r.description.Some? && 0 <= r.compatibility <= 100
  }

  /** Lines 41-48: the names as received, the letter, its two table entries and the score. */
  function AssembleResponse(data: FlamesRequest, flamesChar: string, compatibilityScore: int): (r: FlamesResponse)
    ensures r.name1 == data.name1 && r.name2 == data.name2
    ensures r.result == flamesChar && r.compatibility == compatibilityScore
    ensures flamesChar in Reducer.FLAMES ==> r.relationship.Some? && r.description.Some?
  {
    FlamesResponse(data.name1, data.name2, flamesChar,
                   Lookup(FLAMES_RELATIONSHIPS, flamesChar), compatibilityScore,
                   Lookup(FLAMES_DESCRIPTIONS, flamesChar))
  }

  /** Lines 51-57: the calculation handed to the store, stamped with the clock reading. */
  function HistoryEntry(data: FlamesRequest, flamesChar: string, compatibilityScore: int, now: int): (r: Storage.NewCalculation)
    ensures r.name1 == data.name1 && r.name2 == data.name2
    ensures r.result == flamesChar && r.compatibility == compatibilityScore && r.timestamp == now
  {
    Storage.NewCalculation(data.name1, data.name2, flamesChar, compatibilityScore, now)
  }

  /** What the route answers for a valid request. */
  function ExpectedResponse(data: FlamesRequest): FlamesResponse
  {
    AssembleResponse(data, Reducer.FlamesResult(data.name1, data.name2),
                     Compatibility.CompatibilityScore(data.name1, data.name2))
  }

  /**
    Every answer to a valid request satisfies the response schema, although the route never
    checks it: the letter is one of FLAMES, both table reads find an entry, and the score
    lies between 50 and 100.
  */
  lemma ResponseConforms(data: FlamesRequest)
    ensures ConformsToResponseSchema(ExpectedResponse(data))
    ensures 50 <= ExpectedResponse(data).compatibility
  {
  }

  /** The letter is the same whichever way round the two names are entered. */
  lemma ResultIgnoresOrder(data: FlamesRequest)
    ensures ExpectedResponse(data).result == ExpectedResponse(FlamesRequest(data.name2, data.name1)).result
  {
    Reducer.FlamesSymmetric(data.name1, data.name2);
  }

  // ---------------------------------------------------------------------------------------
  // The routes
  // ---------------------------------------------------------------------------------------

  /** The HTTP outcome of the POST route: 200 with the response, or 400 with the schema's issues. */
  datatype Reply = Json(response: FlamesResponse) | BadRequest(issues: seq<Issue>)

  /**
    Lines 29-69. An invalid body gets a 400 and leaves the store as it was; a valid one is
    answered with the letter, the score and the two table entries, and exactly one record
    with the same names, letter and score is appended to the log. When the clock reads later
    than every calculation logged before, that record heads the recent list.
  */
  method PostFlames(storage: Storage.MemStorage, body: Body, now: int) returns (reply: Reply)
    requires storage.Valid()
    modifies storage
    ensures storage.Valid()
    ensures storage.users == old(storage.users) && storage.userId == old(storage.userId)
    ensures ParseRequest(body).Err? ==>
      reply == BadRequest(ParseRequest(body).error)
      && storage.flamesCalculations == old(storage.flamesCalculations) && storage.flamesId == old(storage.flamesId)
    ensures ParseRequest(body).Ok? ==>
      var data := ParseRequest(body).value;
      var response := ExpectedResponse(data);
      reply == Json(response) && ConformsToResponseSchema(response)
      && storage.flamesCalculations == old(storage.flamesCalculations) +
           [Storage.WithId(HistoryEntry(data, response.result, response.compatibility, now), old(storage.flamesId))]
    ensures ParseRequest(body).Ok? && (forall c :: c in old(storage.flamesCalculations) ==> c.timestamp < now) ==>
      storage.GetRecentCalculations(10)[0] == storage.flamesCalculations[|storage.flamesCalculations| - 1]
  {
    var parsed := ParseRequest(body);
    if parsed.Err? {
      return BadRequest(parsed.error);
    }
    var data := parsed.value;
    var flamesChar := Reducer.CalculateFlames(data.name1, data.name2);
    var compatibilityScore := Compatibility.CalculateCompatibility(data.name1, data.name2);
    var response := AssembleResponse(data, flamesChar, compatibilityScore);
    ghost var log := storage.flamesCalculations;
    var saved := storage.SaveFlamesCalculation(HistoryEntry(data, flamesChar, compatibilityScore, now));
    ResponseConforms(data);
    if forall c :: c in log ==> c.timestamp < now {
      Storage.NewestSaveComesFirst(log, saved);
    }
    return Json(response);
  }

  /** Lines 72-79: the ten most recent calculations, at most ten of them. */
  method GetRecent(storage: Storage.MemStorage) returns (recentCalculations: seq<Storage.FlamesCalculation>)
    requires storage.Valid()
    ensures recentCalculations == storage.GetRecentCalculations(10)
    ensures |recentCalculations| <= 10
    ensures |recentCalculations| == 10 || recentCalculations == Storage.SortByTimeDesc(storage.flamesCalculations)
  {
    recentCalculations := storage.GetRecentCalculations(10);
  }
}
