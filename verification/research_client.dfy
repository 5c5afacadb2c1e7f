/** Post-processing of one research response: cutting the JSON object out of the
    reply text, collecting the search-grounding URLs, and normalising the parsed
    object so that no top-level field is absent. The request itself, and
    `JSON.parse`, stay outside: the reply arrives as a `Result` and the parser
    is a parameter. */
module ResearchClient {
  import opened Wrappers
  import opened Text
  import opened Sequences
  import opened Types

  const InvalidJsonMessage: string := "Invalid JSON response"

  datatype WebRef = WebRef(uri: Option<string>)

  datatype GroundingChunk = GroundingChunk(web: Option<WebRef>)

  /** What the upstream call returns: the reply text and the grounding chunks of
      its first candidate, either of which may be absent. */
  datatype Response = Response(text: Option<string>, groundingChunks: Option<seq<GroundingChunk>>)

  /** The object `JSON.parse` produced, with every top-level field optional. */
  datatype ParsedResult = ParsedResult(
    partA: Option<seq<CompanyData>>,
    partB: Option<seq<BenchmarkData>>,
    sources: Option<seq<SourceGroup>>,
    verificationLog: Option<seq<VerificationLog>>,
    overallConfidenceScore: Option<int>,
    dataCoverage: Option<int>)

  /** A '{' at or before a '}': the reply holds something shaped like an object. */
  predicate BracesInOrder(t: string) {
    exists i, j :: 0 <= i <= j < |t| && t[i] == '{' && t[j] == '}'
  }

  /** The text from the first '{' to the last '}' of the reply, a missing reply
      counting as the empty text. */
  function ExtractJson(text: Option<string>): (r: Result<string, string>)
    ensures r.Failure? <==> '{' !in text.GetOr("") || '}' !in text.GetOr("")
    ensures r.Failure? ==> r.error == InvalidJsonMessage
  {
    var t := text.GetOr("");
    var first := IndexOf(t, '{');
    var last := LastIndexOf(t, '}');
    if first == -1 || last == -1 then Failure(InvalidJsonMessage)
    else Success(JsSubstring(t, first, last + 1))
  }

  /** When a '{' comes at or before a '}', the extract is the slice from the first
      '{' through the last '}': it opens with '{', closes with '}', and nothing
      before it holds a '{' and nothing after it holds a '}'. */
  lemma ExtractOrdered(text: Option<string>)
    requires BracesInOrder(text.GetOr(""))
    ensures ExtractJson(text).Success?
    ensures var t, v := text.GetOr(""), ExtractJson(text).value;
      && |v| >= 1 && v[0] == '{' && v[|v| - 1] == '}'
      && exists i :: 0 <= i && i + |v| <= |t| && t[i..i + |v|] == v && '{' !in t[..i] && '}' !in t[i + |v|..]
  {
    var t := text.GetOr("");
    var i, j :| 0 <= i <= j < |t| && t[i] == '{' && t[j] == '}';
    var first := IndexOf(t, '{');
    var last := LastIndexOf(t, '}');
    assert first <= i;
    assert j <= last;
    var v := t[first..last + 1];
    assert ExtractJson(text).value == v;
    assert t[first + |v|..] == t[last + 1..];
  }

  /** JavaScript's `substring` swaps reversed bounds: when every '}' precedes
      every '{', extraction still succeeds, with the brace-free text between the
      last '}' and the first '{'. */
  lemma ExtractReversed(text: Option<string>)
    requires '{' in text.GetOr("") && '}' in text.GetOr("")
    requires !BracesInOrder(text.GetOr(""))
    ensures ExtractJson(text).Success?
    ensures LastIndexOf(text.GetOr(""), '}') < IndexOf(text.GetOr(""), '{')
    ensures ExtractJson(text).value
            == text.GetOr("")[LastIndexOf(text.GetOr(""), '}') + 1..IndexOf(text.GetOr(""), '{')]
    ensures '{' !in ExtractJson(text).value && '}' !in ExtractJson(text).value
  {
    var t := text.GetOr("");
    var first := IndexOf(t, '{');
    var last := LastIndexOf(t, '}');
    assert last < first;
    var v := ExtractJson(text).value;
    assert v == t[last + 1..first];
    forall k | 0 <= k < |v|
      ensures v[k] != '{' && v[k] != '}'
    {
      assert v[k] == t[last + 1 + k];
      assert t[..first][last + 1 + k] == t[last + 1 + k];
      assert t[last + 1..][k] == t[last + 1 + k];
    }
  }

  /** The reply "}x{" yields "x" rather than an extraction failure. */
  lemma ExtractReversedExample()
    ensures ExtractJson(Some("}x{")) == Success("x")
  {
    var t := "}x{";
    assert t[..2] == "}x" && t[1..] == "x{";
    assert IndexOf(t, '{') == 2;
    assert LastIndexOf(t, '}') == 0;
  }

  /** Extracting again from an ordered extract returns it unchanged. */
  lemma ExtractIdempotent(text: Option<string>)
    requires BracesInOrder(text.GetOr(""))
    ensures ExtractJson(text).Success?
    ensures ExtractJson(Some(ExtractJson(text).value)) == ExtractJson(text)
  {
    ExtractOrdered(text);
    var v := ExtractJson(text).value;
    assert v[0] == '{' && v[|v| - 1] == '}';
    assert IndexOf(v, '{') == 0;
    assert LastIndexOf(v, '}') == |v| - 1;
    assert JsSubstring(v, 0, |v|) == v;
  }

  /** `chunk.web?.uri`, kept only when it is a non-empty string. */
  function CollectUris(chunks: seq<GroundingChunk>): (urls: seq<string>)
    ensures forall k :: 0 <= k < |urls| ==> urls[k] != ""
    ensures forall u :: u in urls <==> ProvidesUri(chunks, u)
  {
    if |chunks| == 0 then []
    else
      var rest := CollectUris(chunks[1..]);
      assert forall u :: ProvidesUri(chunks, u) <==> (chunks[0].web == Some(WebRef(Some(u))) && u != "") || ProvidesUri(chunks[1..], u) by {
        forall u ensures ProvidesUri(chunks, u) <==> (chunks[0].web == Some(WebRef(Some(u))) && u != "") || ProvidesUri(chunks[1..], u) {
          if ProvidesUri(chunks, u) {
            var k :| 0 <= k < |chunks| && chunks[k].web == Some(WebRef(Some(u))) && u != "";
            if k > 0 { assert chunks[1..][k - 1] == chunks[k]; }
          }
          if ProvidesUri(chunks[1..], u) {
            var k :| 0 <= k < |chunks[1..]| && chunks[1..][k].web == Some(WebRef(Some(u))) && u != "";
            assert chunks[k + 1] == chunks[1..][k];
          }
        }
      }
      match chunks[0].web
      case Some(WebRef(Some(u))) => if u != "" then [u] + rest else rest
      case _ => rest
  }

  /** Collecting keeps the chunks' order: the URIs of two consecutive runs of
      chunks are those of the first run followed by those of the second. */
  lemma {:induction false} CollectUrisConcat(a: seq<GroundingChunk>, b: seq<GroundingChunk>)
    ensures CollectUris(a + b) == CollectUris(a) + CollectUris(b)
  {
    if |a| == 0 {
      assert a + b == b;
    } else {
      assert (a + b)[0] == a[0];
      assert (a + b)[1..] == a[1..] + b;
      CollectUrisConcat(a[1..], b);
    }
  }

  /** The grounding URLs appear in the order the chunks first provide them: a
      URI provided by one of the first `j` chunks precedes every URI that none
      of them provides. */
  lemma GroundingUrlsOrder(chunks: seq<GroundingChunk>, j: nat, u: string, v: string)
    requires j <= |chunks|
    requires ProvidesUri(chunks[..j], u) && !ProvidesUri(chunks[..j], v)
    ensures var urls := GroundingUrls(Some(chunks));
      forall a, b :: 0 <= a < |urls| && 0 <= b < |urls| && urls[a] == u && urls[b] == v ==> a < b
  {
    var head, tail := CollectUris(chunks[..j]), CollectUris(chunks[j..]);
    assert chunks[..j] + chunks[j..] == chunks;
    CollectUrisConcat(chunks[..j], chunks[j..]);
    DistinctPrefix(head, tail);
    var p := Distinct(head);
    var urls := GroundingUrls(Some(chunks));
    assert urls == Distinct(head + tail);
    assert u in head;
    forall a, b | 0 <= a < |urls| && 0 <= b < |urls| && urls[a] == u && urls[b] == v
      ensures a < b
    {
      var a' :| 0 <= a' < |p| && p[a'] == u;
      assert urls[a'] == u;
      if b < |p| {
        assert false;
      }
    }
  }

  /** Some chunk carries `u` as a non-empty `web.uri`. */
  predicate ProvidesUri(chunks: seq<GroundingChunk>, u: string) {
    exists k :: 0 <= k < |chunks| && chunks[k].web == Some(WebRef(Some(u))) && u != ""
  }

  /** `Array.from(new Set(urls))` over the collected URIs; absent chunk metadata counts as none. */
  function GroundingUrls(chunks: Option<seq<GroundingChunk>>): (urls: seq<string>)
    ensures NoDuplicates(urls)
    ensures forall u :: u in urls <==> ProvidesUri(chunks.GetOr([]), u)
  {
    Distinct(CollectUris(chunks.GetOr([])))
  }

  /** Replaces every absent top-level field by its empty default. */
  function Normalise(parsed: ParsedResult, groundingUrls: seq<string>): (r: ResearchResult)
    ensures r.groundingUrls == groundingUrls
    ensures parsed.partA.Some? ==> r.partA == parsed.partA.value
    ensures parsed.partA.None? ==> r.partA == []
    ensures parsed.partB.Some? ==> r.partB == parsed.partB.value
    ensures parsed.partB.None? ==> r.partB == []
    ensures parsed.sources.Some? ==> r.sources == parsed.sources.value
    ensures parsed.sources.None? ==> r.sources == []
    ensures parsed.verificationLog.Some? ==> r.verificationLog == parsed.verificationLog.value
    ensures parsed.verificationLog.None? ==> r.verificationLog == []
    ensures parsed.overallConfidenceScore.Some? ==> r.overallConfidenceScore == parsed.overallConfidenceScore.value
    ensures parsed.overallConfidenceScore.None? ==> r.overallConfidenceScore == 0
    ensures parsed.dataCoverage.Some? ==> r.dataCoverage == parsed.dataCoverage.value
    ensures parsed.dataCoverage.None? ==> r.dataCoverage == 0
  {
    ResearchResult(
      parsed.partA.GetOr([]),
      parsed.partB.GetOr([]),
      parsed.sources.GetOr([]),
      groundingUrls,
      parsed.verificationLog.GetOr([]),
      // `x || 0`: a present 0 is falsy and maps to 0, which is itself.
      parsed.overallConfidenceScore.GetOr(0),
      parsed.dataCoverage.GetOr(0))
  }

  /** A normalised result seen again as a parsed object: every field present. */
  function AsParsed(r: ResearchResult): ParsedResult {
    ParsedResult(Some(r.partA), Some(r.partB), Some(r.sources), Some(r.verificationLog),
                 Some(r.overallConfidenceScore), Some(r.dataCoverage))
  }

  /** Normalising a complete result changes nothing; so normalisation is idempotent. */
  lemma NormaliseComplete(r: ResearchResult)
    ensures Normalise(AsParsed(r), r.groundingUrls) == r
  {
  }

  /** The whole post-processing of one research call. An upstream failure is
      re-raised unchanged; an extraction or parse failure becomes the failure. */
  function PerformResearch(reply: Result<Response, string>, parse: string -> Result<ParsedResult, string>)
    : (r: Result<ResearchResult, string>)
    ensures reply.Failure? ==> r == Failure(reply.error)
    ensures reply.Success? && ExtractJson(reply.value.text).Failure? ==> r == Failure(InvalidJsonMessage)
    ensures reply.Success? && ExtractJson(reply.value.text).Success?
            && parse(ExtractJson(reply.value.text).value).Failure?
            ==> r == Failure(parse(ExtractJson(reply.value.text).value).error)
    ensures reply.Success? && ExtractJson(reply.value.text).Success?
            && parse(ExtractJson(reply.value.text).value).Success?
            ==> r.Success?
    ensures r.Success? ==>
              && reply.Success?
              && ExtractJson(reply.value.text).Success?
              && parse(ExtractJson(reply.value.text).value).Success?
              && r.value == Normalise(parse(ExtractJson(reply.value.text).value).value,
                                      GroundingUrls(reply.value.groundingChunks))
  {
    match reply
    case Failure(e) => Failure(e)
    case Success(response) =>
      match ExtractJson(response.text)
      case Failure(e) => Failure(e)
      case Success(json) =>
        match parse(json)
        case Failure(e) => Failure(e)
        case Success(parsed) => Success(Normalise(parsed, GroundingUrls(response.groundingChunks)))
  }

  /** Every successful research result has duplicate-free grounding URLs, each a
      non-empty `web.uri` of some chunk, and every such uri among them. */
  lemma ResearchGroundingUrls(reply: Result<Response, string>, parse: string -> Result<ParsedResult, string>)
    requires PerformResearch(reply, parse).Success?
    ensures var urls := PerformResearch(reply, parse).value.groundingUrls;
      && NoDuplicates(urls)
      && forall u :: u in urls <==> ProvidesUri(reply.value.groundingChunks.GetOr([]), u)
  {
  }
}
