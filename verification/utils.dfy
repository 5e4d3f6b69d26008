/** `RefusalDetector` (dgame/utils.py): a standalone refusal check over a
    model chosen at construction. It sends the same request and extracts the
    verdict the same way as the games' own checks, but through the
    interface's `generate` method, whose reply is a dict. */
module Utils {
  import opened Wrappers
  import opened Json
  import opened Oracle
  import opened Games

  /** What the interface's `generate` hands back, as far as the detector
      looks at it: the `text` entry of the returned dict (None when the key
      is missing), or an exception raised by the call. */
  datatype Generation = Returned(text: Option<Value>) | Threw

  /** A model behind the `generate` interface of dgame/models.py, as an
      oracle. The games call a different method, `generate_response`, which
      returns a `(text, usage)` pair: that is `Oracle.Model`. */
  datatype Interface = Interface(name: string, generate: Request -> Generation)

  /** A detector: the interface it consults. */
  datatype RefusalDetector = RefusalDetector(model: Interface)

  /** The constructor: the supplied interface, or the module's default
      checker when none is supplied. An interface object is always truthy, so
      `or` only falls through on `None`. The default is built at import time
      over the network and is a parameter here. */
  function NewRefusalDetector(runner: Option<Interface>, fallback: Interface): (d: RefusalDetector)
    ensures runner.Some? ==> d.model == runner.value
    ensures runner.None? ==> d.model == fallback
  {
    match runner
    case Some(m) => RefusalDetector(m)
    case None => RefusalDetector(fallback)
  }

  /** The reply text, when `generate` returned a string under `text`. */
  function GeneratedText(g: Generation): Option<string>
  {
    if g.Returned? && g.text.Some? && g.text.value.Str? then Some(g.text.value.s) else None
  }

  /** The reply text of a `generate_response` call, when it returned. */
  function ResponseText(r: Reply): Option<string>
  {
    if r.Generated? then Some(r.text) else None
  }

  /** The verdict of one `generate` outcome: an exception, a missing `text`
      (`KeyError`) and a `text` that is not a string (no `rfind`) all become
      `False`; a string is read by the last-`{` / last-`}` slice. */
  function GenerationVerdict(g: Generation, loads: string -> Option<Obj>): (v: Value)
    ensures GeneratedText(g).None? ==> v == Bool(false)
  {
    match GeneratedText(g)
    case None => Bool(false)
    case Some(t) => VerdictText(t, loads)
  }

  /** `is_refusal`: one `generate` call to the detector's interface, the
      verdict taken from the slice between the last `{` and the last `}`,
      and every exception (the call itself, a missing or non-string `text`, a
      failed decode) turned into `False`. The verdict is the decoded
      `is_refusal` value itself, not a coerced boolean. */
  function IsRefusal(d: RefusalDetector, text: string, loads: string -> Option<Obj>): (c: Check)
    ensures c.requests == [RefusalRequest(text)]
    ensures c.requests[0].system == Some(RefusalSystemPrompt) && c.requests[0].maxTokens == 100
    ensures |text| <= |c.requests[0].user| && c.requests[0].user[|c.requests[0].user| - |text|..] == text
    ensures d.model.generate(RefusalRequest(text)).Threw? ==> c.verdict == Bool(false)
    ensures d.model.generate(RefusalRequest(text)) == Returned(None) ==> c.verdict == Bool(false)
    ensures (d.model.generate(RefusalRequest(text)).Returned? && d.model.generate(RefusalRequest(text)).text.Some?
             && !d.model.generate(RefusalRequest(text)).text.value.Str?) ==> c.verdict == Bool(false)
  {
    var q := RefusalRequest(text);
    Check(GenerationVerdict(d.model.generate(q), loads), [q])
  }

  /** The detector and the parser's refusal check send the same request,
      and reach the same verdict whenever the detector's `generate` and the
      checker's `generate_response` yield the same reply text (both failing
      counts as the same). */
  lemma DetectorAgreesWithParser(d: RefusalDetector, m: Model, text: string, loads: string -> Option<Obj>)
    requires GeneratedText(d.model.generate(RefusalRequest(text))) == ResponseText(m.respond(RefusalRequest(text)))
    ensures IsRefusal(d, text, loads) == CheckRefusal(Some(m), text, loads)
  {
  }

  /** A reply lacking a `{` or lacking a `}` is never a refusal. */
  lemma MissingBraceIsFalse(d: RefusalDetector, text: string, loads: string -> Option<Obj>, reply: string)
    requires d.model.generate(RefusalRequest(text)) == Returned(Some(Str(reply)))
    requires '{' !in reply || '}' !in reply
    ensures IsRefusal(d, text, loads).verdict == Bool(false)
  {
    MissingBraceIsNotRefusal(reply, loads);
  }

  /** With the last `{` at `i` before the last `}` at `j`, the verdict is read
      from the slice `reply[i..j]` inclusive: `False` if it does not decode,
      otherwise its `is_refusal` value, or `False` without that key. When the
      last `}` comes first the slice is empty, which does not decode. */
  lemma VerdictFromSlice(d: RefusalDetector, text: string, loads: string -> Option<Obj>,
                         reply: string, i: nat, j: nat)
    requires d.model.generate(RefusalRequest(text)) == Returned(Some(Str(reply)))
    requires i < |reply| && j < |reply| && reply[i] == '{' && reply[j] == '}'
    requires forall k :: i < k < |reply| ==> reply[k] != '{'
    requires forall k :: j < k < |reply| ==> reply[k] != '}'
    requires loads([]) == None
    ensures j < i ==> IsRefusal(d, text, loads).verdict == Bool(false)
    ensures i < j && loads(reply[i..j + 1]).None? ==> IsRefusal(d, text, loads).verdict == Bool(false)
    ensures i < j && loads(reply[i..j + 1]).Some? && VerdictKey in loads(reply[i..j + 1]).value ==>
              IsRefusal(d, text, loads).verdict == loads(reply[i..j + 1]).value[VerdictKey]
    ensures i < j && loads(reply[i..j + 1]).Some? && VerdictKey !in loads(reply[i..j + 1]).value ==>
              IsRefusal(d, text, loads).verdict == Bool(false)
  {
    VerdictFromLastBraces(reply, loads, i, j);
  }

  /** The three observed outcomes: a reply `{"is_refusal": true}` is
      `True`, `{"is_refusal": false}` is `False`, and `Invalid JSON` is
      `False`. */
  lemma ObservedOutcomes(loads: string -> Option<Obj>, d: RefusalDetector, x: string, y: string, z: string)
    requires loads("{\"is_refusal\": true}") == Some(map[VerdictKey := Bool(true)])
    requires loads("{\"is_refusal\": false}") == Some(map[VerdictKey := Bool(false)])
    requires d.model.generate(RefusalRequest(x)) == Returned(Some(Str("{\"is_refusal\": true}")))
    requires d.model.generate(RefusalRequest(y)) == Returned(Some(Str("{\"is_refusal\": false}")))
    requires d.model.generate(RefusalRequest(z)) == Returned(Some(Str("Invalid JSON")))
    ensures IsRefusal(d, x, loads).verdict == Bool(true)
    ensures IsRefusal(d, y, loads).verdict == Bool(false)
    ensures IsRefusal(d, z, loads).verdict == Bool(false)
  {
    ObservedVerdicts(loads);
  }
}
