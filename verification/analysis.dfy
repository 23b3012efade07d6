/**
 * The result-classification step of `validate_resume_local`: the candidate
 * found by `extract_json` goes to the lenient decoder, and every outcome
 * becomes one structured value, either the decoded result or an error
 * record that keeps the diagnostic text.
 */
module Analysis {
  import opened Wrappers
  import opened Extract
  import ExtractFacts

  /** A decoded JSON / Python-literal value; dictionaries keep their keys in insertion order. */
  datatype Value =
    | Null
    | Bool(b: bool)
    | Number(n: real)
    | Str(s: string)
    | List(items: seq<Value>)
    | Dict(fields: seq<(string, Value)>)

  /**
   * A library parser seen from outside: `json.loads` or `ast.literal_eval`
   * applied to a text gives a value or fails with the exception's message.
   */
  type Decoder = string -> Result<Value, string>

  /** One persisted analysis run. */
  datatype Entry = Entry(file: string, path: string, timestamp: string, model: string, result: Value)

  /** `d.get(key)` on a dictionary given as its items in insertion order. */
  function Get(fields: seq<(string, Value)>, key: string): (r: Option<Value>)
    ensures r.Some? <==> exists i | 0 <= i < |fields| :: fields[i].0 == key
  {
    if fields == [] then None
    else if fields[0].0 == key then Some(fields[0].1)
    else Get(fields[1..], key)
  }

  /**
   * `safe_json_loads`: strict JSON first, then the Python-literal parser;
   * when both reject the text, a failure whose message wraps the second
   * parser's message.
   */
  function SafeJsonLoads(s: string, strict: Decoder, literal: Decoder): (r: Result<Value, string>)
    ensures r.Success? <==> strict(s).Success? || literal(s).Success?
    ensures strict(s).Success? ==> r == strict(s)
    ensures strict(s).Failure? && literal(s).Success? ==> r == literal(s)
    ensures r.Failure? ==> r.error == "JSON inv\U{E1}lido: " + literal(s).error
  {
    match strict(s)
    case Success(v) => Success(v)
    case Failure(_) =>
      match literal(s)
      case Success(v) => Success(v)
      case Failure(e) => Failure("JSON inv\U{E1}lido: " + e)
  }

  const NoJsonMessage: string := "Nenhum JSON encontrado"
  const DecodeFailurePrefix: string := "Falha ao converter JSON: "

  /** `{"error": "Nenhum JSON encontrado", "raw": response}`. */
  function NoJsonRecord(response: string): (v: Value)
    ensures v.Dict? && Get(v.fields, "error") == Some(Str(NoJsonMessage))
    ensures Get(v.fields, "raw") == Some(Str(response)) && Get(v.fields, "json_extraido").None?
  {
    Dict([("error", Str(NoJsonMessage)), ("raw", Str(response))])
  }

  /** `{"error": "Falha ao converter JSON: <message>", "json_extraido": candidate, "raw": response}`. */
  function DecodeFailureRecord(message: string, candidate: string, response: string): (v: Value)
    ensures v.Dict? && Get(v.fields, "error") == Some(Str(DecodeFailurePrefix + message))
    ensures Get(v.fields, "json_extraido") == Some(Str(candidate)) && Get(v.fields, "raw") == Some(Str(response))
  {
    var fields := [("error", Str(DecodeFailurePrefix + message)), ("json_extraido", Str(candidate)), ("raw", Str(response))];
    assert fields[1..][1..] == [("raw", Str(response))];
    assert |"raw"| != |"error"| && |"raw"| != |"json_extraido"|;
    assert Get(fields[1..], "raw") == Get(fields[1..][1..], "raw");
    Dict(fields)
  }

  /**
   * The three-way decision on the extractor's answer: nothing usable (None,
   * or the empty string, which Python's `not json_str` also rejects), a
   * candidate the decoder rejects, or a decoded value.
   */
  function Classify(response: string, candidate: Option<string>, strict: Decoder, literal: Decoder): (data: Value)
    ensures candidate.None? ==> data == NoJsonRecord(response)
    ensures candidate.Some? && candidate.value != "" && SafeJsonLoads(candidate.value, strict, literal).Failure? ==>
      data == DecodeFailureRecord(SafeJsonLoads(candidate.value, strict, literal).error, candidate.value, response)
    ensures candidate.Some? && candidate.value != "" && SafeJsonLoads(candidate.value, strict, literal).Success? ==>
      data == SafeJsonLoads(candidate.value, strict, literal).value
  {
    if candidate.None? || candidate.value == "" then
      NoJsonRecord(response)
    else
      match SafeJsonLoads(candidate.value, strict, literal)
      case Failure(e) => DecodeFailureRecord(e, candidate.value, response)
      case Success(v) => v
  }

  /**
   * What the pipeline stores as `result` for a model response: extraction
   * followed by classification. No candidate gives the "no JSON" record with
   * the raw response; a rejected candidate gives a record holding the
   * candidate and the raw response; otherwise the decoded value itself.
   */
  ghost function AnalysisResult(response: string, strict: Decoder, literal: Decoder): (data: Value)
    ensures ExtractSpec(response).None? ==> data == NoJsonRecord(response)
    ensures ExtractSpec(response).Some? ==>
      var c := ExtractSpec(response).value;
      match SafeJsonLoads(c, strict, literal)
      case Failure(m) => data == DecodeFailureRecord(m, c, response)
      case Success(v) => data == v
  {
    ExtractFacts.CandidateNonEmpty(response);
    Classify(response, ExtractSpec(response), strict, literal)
  }

  /** A response without any '{' is recorded as "no JSON found", with the response kept as `raw`. */
  lemma NoBraceNoJson(response: string, strict: Decoder, literal: Decoder)
    requires '{' !in response
    ensures AnalysisResult(response, strict, literal) == NoJsonRecord(response)
    ensures Get(AnalysisResult(response, strict, literal).fields, "raw") == Some(Str(response))
  {
    ExtractFacts.NoCandidateIff(response);
  }

  /** A fenced `{"a":1}` that the strict parser accepts is stored as exactly the decoded value. */
  lemma FencedResponseDecoded(response: string, strict: Decoder, literal: Decoder, v: Value)
    requires response == "```json\n{\"a\":1}\n```"
    requires strict("{\"a\":1}") == Success(v)
    ensures AnalysisResult(response, strict, literal) == v
  {
    ExtractFacts.FencedExample(response);
  }

  /**
   * Whenever the stored result is not a decoded value, it is a dictionary
   * whose `raw` field is the whole model response, so nothing the model said
   * is lost.
   */
  lemma ErrorKeepsResponse(response: string, strict: Decoder, literal: Decoder)
    requires ExtractSpec(response).None? || SafeJsonLoads(ExtractSpec(response).value, strict, literal).Failure?
    ensures AnalysisResult(response, strict, literal).Dict?
    ensures Get(AnalysisResult(response, strict, literal).fields, "raw") == Some(Str(response))
  {
    ExtractFacts.CandidateNonEmpty(response);
  }
}
