/** The model-invocation collaborator as an oracle, and the refusal verdict
    that the three refusal checks (the synchronous and asynchronous game
    helpers and `RefusalDetector.is_refusal`) all extract from its reply by
    the last-`{` / last-`}` slice. */
module Oracle {
  import opened Wrappers
  import opened Json
  import opened Text

  /** One call to a model: system prompt (Python `None` allowed), user prompt
      and the `max_tokens` bound. */
  datatype Request = Request(system: Option<string>, user: string, maxTokens: int)

  /** What a call yields: the text and token usage, or an exception raised
      anywhere in the transport (network error, missing `text` key, ...). */
  datatype Reply = Generated(text: string, inputTokens: int, outputTokens: int) | Raised

  /** A model: its name and its behaviour, an oracle from request to reply. */
  datatype Model = Model(name: string, respond: Request -> Reply)

  /** The fixed instruction given to the refusal-checking model. */
  const RefusalSystemPrompt: string :=
    "You are analyzing an unparsable response from an AI in a resource allocation experiment.\n"
    + "        Determine if the response represents a refusal to participate in the experiment (expressing discomfort, declining to \n"
    + "        make an allocation, stating ethical concerns, etc.) or if the lack of an expected json object in the output is for\n"
    + "        some other reason.\n\n"
    + "        Respond with a JSON object containing a single boolean field \"is_refusal\"."

  const RefusalUserPrefix: string :=
    "Analyze this response and determine if it represents a refusal to participate:\n\n"

  /** The token bound of a refusal-check call. */
  const RefusalMaxTokens: int := 100

  /** The key whose value is the verdict. */
  const VerdictKey: string := "is_refusal"

  /** The single request a refusal check sends about `text`. */
  function RefusalRequest(text: string): (q: Request)
    ensures q.system == Some(RefusalSystemPrompt)
    ensures q.maxTokens == 100
    ensures |text| <= |q.user| && q.user[|q.user| - |text|..] == text
  {
    var user := RefusalUserPrefix + text;
    assert user[|user| - |text|..] == text;
    Request(Some(RefusalSystemPrompt), user, RefusalMaxTokens)
  }

  /** Python `s[lo:hi]` for non-negative bounds within the string: empty when
      the bounds are inverted. */
  function Slice(s: string, lo: nat, hi: nat): (r: string)
    requires lo <= |s| && hi <= |s|
    ensures hi <= lo ==> r == []
    ensures lo <= hi ==> r == s[lo..hi]
  {
    if lo <= hi then s[lo..hi] else []
  }

  /** `result.get('is_refusal', False)` on a decode outcome. */
  function FieldOrFalse(decoded: Option<Obj>): Value
  {
    match decoded
    case None => Bool(false)
    case Some(o) => if VerdictKey in o then o[VerdictKey] else Bool(false)
  }

  /** The verdict in a reply text: decode the slice from the last `{` to the
      last `}` inclusive; either brace missing, or a failed decode, is `False`. */
  function VerdictText(reply: string, loads: string -> Option<Obj>): (v: Value)
    ensures RFind(reply, '{') == -1 || RFind(reply, '}') == -1 ==> v == Bool(false)
  {
    var start := RFind(reply, '{');
    var end := RFind(reply, '}');
    if start == -1 || end == -1 then Bool(false)
    else FieldOrFalse(loads(Slice(reply, start, end + 1)))
  }

  /** Every failure of the call itself is swallowed into `False`. */
  function ReplyVerdict(reply: Reply, loads: string -> Option<Obj>): (v: Value)
    ensures reply.Raised? ==> v == Bool(false)
  {
    match reply
    case Raised => Bool(false)
    case Generated(text, _, _) => VerdictText(text, loads)
  }

  /** A refusal check's outcome: the verdict and the requests it sent. */
  datatype Check = Check(verdict: Value, requests: seq<Request>)

  /** Ask `m` once whether `text` is a refusal. */
  function Consult(m: Model, text: string, loads: string -> Option<Obj>): (c: Check)
    ensures |c.requests| == 1 && c.requests[0] == RefusalRequest(text)
    ensures m.respond(RefusalRequest(text)).Raised? ==> c.verdict == Bool(false)
  {
    var q := RefusalRequest(text);
    Check(ReplyVerdict(m.respond(q), loads), [q])
  }

  /** A reply lacking a `{` or a `}` is never a refusal. */
  lemma MissingBraceIsNotRefusal(reply: string, loads: string -> Option<Obj>)
    requires '{' !in reply || '}' !in reply
    ensures VerdictText(reply, loads) == Bool(false)
  {
    RFindIsLast(reply, '{');
    RFindIsLast(reply, '}');
    if '{' !in reply {
      assert RFind(reply, '{') == -1;
    } else {
      assert RFind(reply, '}') == -1;
    }
  }

  /** The slice runs from the last `{` to the last `}` inclusive: stated with
      the two braces located declaratively. */
  lemma VerdictFromLastBraces(reply: string, loads: string -> Option<Obj>, i: nat, j: nat)
    requires i < |reply| && j < |reply| && reply[i] == '{' && reply[j] == '}'
    requires forall k :: i < k < |reply| ==> reply[k] != '{'
    requires forall k :: j < k < |reply| ==> reply[k] != '}'
    ensures i < j ==> VerdictText(reply, loads) == FieldOrFalse(loads(reply[i..j + 1]))
    ensures j < i ==> VerdictText(reply, loads) == FieldOrFalse(loads([]))
  {
    var start := RFind(reply, '{');
    var end := RFind(reply, '}');
    RFindIsLast(reply, '{');
    RFindIsLast(reply, '}');
    assert start == i;
    assert end == j;
  }

  /** When the last `}` precedes the last `{`, the slice is empty, which no
      JSON decoder accepts, so the verdict is `False`. */
  lemma InvertedBracesIsNotRefusal(reply: string, loads: string -> Option<Obj>)
    requires loads([]) == None
    requires RFind(reply, '}') < RFind(reply, '{')
    ensures VerdictText(reply, loads) == Bool(false)
  {
  }

  /** A truthy verdict needs real evidence: both braces, in order, and a
      decoded object whose `is_refusal` value is truthy. */
  lemma RefusalNeedsEvidence(reply: string, loads: string -> Option<Obj>)
    requires loads([]) == None
    requires Truthy(VerdictText(reply, loads))
    ensures 0 <= RFind(reply, '{') < RFind(reply, '}')
    ensures loads(reply[RFind(reply, '{')..RFind(reply, '}') + 1]).Some?
    ensures VerdictKey in loads(reply[RFind(reply, '{')..RFind(reply, '}') + 1]).value
    ensures Truthy(loads(reply[RFind(reply, '{')..RFind(reply, '}') + 1]).value[VerdictKey])
  {
  }

  /** A reply that is one object, with no other brace, is decoded whole. */
  lemma WholeObjectVerdict(t: string, loads: string -> Option<Obj>)
    requires 2 <= |t| && t[0] == '{' && t[|t| - 1] == '}'
    requires forall k :: 0 < k < |t| ==> t[k] != '{'
    requires forall k :: 0 <= k < |t| - 1 ==> t[k] != '}'
    ensures VerdictText(t, loads) == FieldOrFalse(loads(t))
  {
    VerdictFromLastBraces(t, loads, 0, |t| - 1);
    assert t[0..|t|] == t;
  }

  /** The three observed detector outcomes, for a decoder that reads the two
      one-field objects the usual way. */
  lemma ObservedVerdicts(loads: string -> Option<Obj>)
    requires loads("{\"is_refusal\": true}") == Some(map[VerdictKey := Bool(true)])
    requires loads("{\"is_refusal\": false}") == Some(map[VerdictKey := Bool(false)])
    ensures VerdictText("{\"is_refusal\": true}", loads) == Bool(true)
    ensures VerdictText("{\"is_refusal\": false}", loads) == Bool(false)
    ensures VerdictText("Invalid JSON", loads) == Bool(false)
  {
    WholeObjectVerdict("{\"is_refusal\": true}", loads);
    WholeObjectVerdict("{\"is_refusal\": false}", loads);
    MissingBraceIsNotRefusal("Invalid JSON", loads);
  }
}
