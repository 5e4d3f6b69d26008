/** The synchronous dictator game: the `DictatorGame` base class (allocation
    parsing and validation, the refusal check, one game's record, a batch of
    games) and the prompt construction of its `SimpleDGame` and
    `CityBudgetDGame` subclasses. */
module Games {
  import opened Wrappers
  import opened Text
  import opened Json
  import opened Oracle
  import opened Scan

  // ---------------------------------------------------------------------
  // Outcome codes and allocation keys

  /** What a parse ends in, listed in the order the parser tests for them. */
  datatype ErrorCode =
    | Success
    | Refusal
    | NoJson
    | InvalidJson
    | InvalidValues
    | MissingAlloc
    | Negative
    | SumMismatch
  {
    /** The string stored in a record's `error` field; success is empty. */
    function Code(): (s: string)
      ensures |s| == 0 <==> this == Success
    {
      match this
      case Success => ""
      case Refusal => "REFUSAL"
      case NoJson => "NO_JSON"
      case InvalidJson => "INVALID_JSON"
      case InvalidValues => "INVALID_VALUES"
      case MissingAlloc => "MISSING_ALLOC"
      case Negative => "NEGATIVE"
      case SumMismatch => "SUM_MISMATCH"
    }

    /** The outcomes whose allocation is always discarded. */
    predicate Discards()
    {
      this == Refusal || this == NoJson || this == InvalidJson || this == MissingAlloc
    }

    /** The outcomes reached with both halves present as integers. */
    predicate Judged()
    {
      this == Success || this == Negative || this == SumMismatch
    }
  }

  const Alloc0: string := "alloc0"
  const Alloc1: string := "alloc1"

  lemma AllocKeysDiffer()
    ensures Alloc0 != Alloc1
  {
    assert Alloc0[5] != Alloc1[5];
  }

  /** What `parse_allocation` returns, together with the refusal-check
      requests it sent on the way (none on every branch but one). */
  datatype Parsed = Parsed(allocation: Obj, error: ErrorCode, requests: seq<Request>)

  // ---------------------------------------------------------------------
  // The refusal check (`_check_if_refusal`)

  /** Ask the checker, if there is one. A missing checker (the default
      `None` of `parse_allocation`) raises on the attribute lookup inside the
      `try`, which the `except` turns into `False`: no request is sent. */
  function CheckRefusal(checker: Option<Model>, text: string, loads: string -> Option<Obj>): (c: Check)
    ensures |c.requests| == (if checker.Some? then 1 else 0)
    ensures checker.Some? ==> c.requests[0] == RefusalRequest(text)
    ensures checker.None? ==> c.verdict == Bool(false)
    ensures checker.Some? && checker.value.respond(RefusalRequest(text)).Raised? ==> c.verdict == Bool(false)
  {
    match checker
    case None => Check(Bool(false), [])
    case Some(m) => Consult(m, text, loads)
  }

  // ---------------------------------------------------------------------
  // Integer coercion (the `for key in ['alloc0', 'alloc1']` loop)

  /** How the coercion loop ended: normally, on a `ValueError`/`TypeError`
      (caught), or on an `OverflowError` (not caught). */
  datatype Status = AllConverted | ConversionFailed | OverflowRaised

  /** The object as the loop left it, and how the loop ended. */
  datatype Coercion = Coercion(obj: Obj, status: Status)

  /** `key` is absent, or `int()` accepts its value. */
  predicate Convertible(o: Obj, key: string, intOfStr: string -> Option<int>)
  {
    key !in o || PyInt(o[key], intOfStr).Converted?
  }

  /** One iteration: `if key in allocation: allocation[key] = int(allocation[key])`. */
  function CoerceKey(o: Obj, key: string, intOfStr: string -> Option<int>): (c: Coercion)
    ensures c.obj.Keys == o.Keys
    ensures forall k :: k in o && k != key ==> c.obj[k] == o[k]
    ensures c.status.AllConverted? <==> Convertible(o, key, intOfStr)
    ensures c.status.OverflowRaised? <==> key in o && PyInt(o[key], intOfStr).Overflow?
    ensures key in o && c.status.AllConverted? ==> c.obj[key] == Int(PyInt(o[key], intOfStr).n)
    ensures !c.status.AllConverted? ==> c.obj == o
  {
    if key !in o then Coercion(o, AllConverted)
    else
      match PyInt(o[key], intOfStr)
      case Converted(n) => Coercion(o[key := Int(n)], AllConverted)
      case Rejected => Coercion(o, ConversionFailed)
      case Overflow => Coercion(o, OverflowRaised)
  }

  /** The loop over `keys`, stopping at the first exception; what the
      earlier iterations stored stays stored. */
  function CoerceKeys(o: Obj, keys: seq<string>, intOfStr: string -> Option<int>): (c: Coercion)
    ensures c.obj.Keys == o.Keys
    ensures forall k :: k in o && k !in keys ==> c.obj[k] == o[k]
    decreases |keys|
  {
    if |keys| == 0 then Coercion(o, AllConverted)
    else
      var first := CoerceKey(o, keys[0], intOfStr);
      if first.status.AllConverted? then CoerceKeys(first.obj, keys[1..], intOfStr) else first
  }

  /** The coercion step of the parser, over `alloc0` then `alloc1`. */
  function Coerce(o: Obj, intOfStr: string -> Option<int>): (c: Coercion)
  {
    CoerceKeys(o, [Alloc0, Alloc1], intOfStr)
  }

  /** The coercion loop: it converts both keys or stops at the first failure,
      keeps every key, leaves other values alone, and keeps `alloc0`
      converted when only `alloc1` fails. */
  lemma CoerceSpec(o: Obj, intOfStr: string -> Option<int>)
    ensures Coerce(o, intOfStr).obj.Keys == o.Keys
    ensures forall k :: k in o && k != Alloc0 && k != Alloc1 ==> Coerce(o, intOfStr).obj[k] == o[k]
    ensures Coerce(o, intOfStr).status.AllConverted?
            <==> Convertible(o, Alloc0, intOfStr) && Convertible(o, Alloc1, intOfStr)
    ensures Coerce(o, intOfStr).status.OverflowRaised?
            <==> (Alloc0 in o && PyInt(o[Alloc0], intOfStr).Overflow?)
                 || (Convertible(o, Alloc0, intOfStr) && Alloc1 in o && PyInt(o[Alloc1], intOfStr).Overflow?)
    ensures Alloc0 in o && PyInt(o[Alloc0], intOfStr).Converted?
            ==> Coerce(o, intOfStr).obj[Alloc0] == Int(PyInt(o[Alloc0], intOfStr).n)
    ensures Alloc1 in o && Coerce(o, intOfStr).status.AllConverted?
            ==> Coerce(o, intOfStr).obj[Alloc1] == Int(PyInt(o[Alloc1], intOfStr).n)
    ensures !Convertible(o, Alloc0, intOfStr) ==> Coerce(o, intOfStr).obj == o
    ensures !Coerce(o, intOfStr).status.AllConverted? && Alloc1 in o
            ==> Coerce(o, intOfStr).obj[Alloc1] == o[Alloc1]
  {
    AllocKeysDiffer();
    var keys := [Alloc0, Alloc1];
    var first := CoerceKey(o, Alloc0, intOfStr);
    assert keys[1..] == [Alloc1];
    if first.status.AllConverted? {
      var second := CoerceKey(first.obj, Alloc1, intOfStr);
      assert [Alloc1][1..] == [];
      assert CoerceKeys(first.obj, [Alloc1], intOfStr) == second;
      assert Coerce(o, intOfStr) == second;
    } else {
      assert Coerce(o, intOfStr) == first;
    }
  }

  // ---------------------------------------------------------------------
  // Inference and the range and sum checks

  /** Both halves present, as `int()` left them. */
  predicate BothInts(a: Obj)
  {
    Alloc0 in a && Alloc1 in a && a[Alloc0].Int? && a[Alloc1].Int?
  }

  /** Negative first, then the sum; the allocation is kept either way. */
  function Judge(a: Obj, total: int): (p: Parsed)
    requires BothInts(a)
    ensures p.allocation == a && p.requests == [] && p.error.Judged()
    ensures p.error == Success <==> a[Alloc0].n >= 0 && a[Alloc1].n >= 0 && a[Alloc0].n + a[Alloc1].n == total
    ensures p.error == Negative <==> a[Alloc0].n < 0 || a[Alloc1].n < 0
  {
    if a[Alloc0].n < 0 || a[Alloc1].n < 0 then Parsed(a, Negative, [])
    else if a[Alloc0].n + a[Alloc1].n != total then Parsed(a, SumMismatch, [])
    else Parsed(a, Success, [])
  }

  /** Infer a single missing half as `total` minus the other; with neither
      half there is nothing to keep. */
  function Settle(a: Obj, total: int): (p: Parsed)
    requires Alloc0 in a ==> a[Alloc0].Int?
    requires Alloc1 in a ==> a[Alloc1].Int?
    ensures p.requests == []
    ensures (Alloc0 in a || Alloc1 in a) <==> p.error.Judged()
    ensures Alloc0 !in a && Alloc1 !in a ==> p == Parsed(map[], MissingAlloc, [])
    ensures p.error.Judged() ==> BothInts(p.allocation) && p.allocation.Keys == a.Keys + {Alloc0, Alloc1}
    ensures p.error.Judged() ==> forall k :: k in a ==> p.allocation[k] == a[k]
    ensures (Alloc0 in a) != (Alloc1 in a)
            ==> p.allocation[Alloc0].n + p.allocation[Alloc1].n == total && p.error != SumMismatch
  {
    AllocKeysDiffer();
    if Alloc0 in a && Alloc1 !in a then Judge(a[Alloc1 := Int(total - a[Alloc0].n)], total)
    else if Alloc1 in a && Alloc0 !in a then Judge(a[Alloc0 := Int(total - a[Alloc1].n)], total)
    else if Alloc0 !in a && Alloc1 !in a then Parsed(map[], MissingAlloc, [])
    else Judge(a, total)
  }

  // ---------------------------------------------------------------------
  // The parser (`parse_allocation`)

  /** What happens to a decoded candidate, with an `OverflowError` handled
      like the other conversion errors. */
  function Decide(o: Obj, total: int, intOfStr: string -> Option<int>): (p: Parsed)
    ensures p.requests == [] && p.error != Refusal && p.error != NoJson && p.error != InvalidJson
  {
    var c := Coerce(o, intOfStr);
    CoerceSpec(o, intOfStr);
    if c.status.AllConverted? then Settle(c.obj, total)
    else Parsed(c.obj, InvalidValues, [])
  }

  /** `parse_allocation(text, checker)` for a game whose `total_amount` is
      `total`: the refusal check on the no-candidate branch only, then the
      last candidate decoded, coerced, inferred and checked. */
  function Parse(text: string, total: int, checker: Option<Model>, rt: Runtime): (p: Parsed)
    ensures |p.requests| <= 1
    ensures |p.requests| == 1 <==> |Spans(text)| == 0 && checker.Some?
    ensures |p.requests| == 1 ==> p.requests[0] == RefusalRequest(text)
    ensures (p.error == Refusal || p.error == NoJson) <==> |Spans(text)| == 0
  {
    if |Spans(text)| == 0 then
      var c := CheckRefusal(checker, text, rt.loads);
      Parsed(map[], if Truthy(c.verdict) then Refusal else NoJson, c.requests)
    else
      match rt.loads(LastCandidate(text))
      case None => Parsed(map[], InvalidJson, [])
      case Some(o) => Decide(o, total, rt.intOfStr)
  }

  // ---------------------------------------------------------------------
  // The parser as written: two exceptions escape it

  /** The exceptions that leave the parser: a decoder error that is not a
      `JSONDecodeError` (the `except` after `json.loads` names only that
      class), and the `OverflowError` of `int()` on an infinite float (the
      coercion's `except` names only `ValueError` and `TypeError`). */
  datatype Uncaught = DecoderLimit | IntOverflow

  /** A call that returns, or one that raises out of the parser. */
  datatype ParseOutcome = Returns(parsed: Parsed) | Raises(error: Uncaught)

  /** What happens to a decoded candidate as written: `int()` raising
      `OverflowError` on a half the loop reaches leaves the parser, and
      every other outcome is the corrected one. */
  function DecideAsWritten(o: Obj, total: int, intOfStr: string -> Option<int>): (r: ParseOutcome)
    ensures r.Raises? ==> r.error == IntOverflow
    ensures r.Raises?
            <==> (Alloc0 in o && PyInt(o[Alloc0], intOfStr).Overflow?)
                 || (Convertible(o, Alloc0, intOfStr) && Alloc1 in o && PyInt(o[Alloc1], intOfStr).Overflow?)
    ensures r.Returns? ==> r.parsed == Decide(o, total, intOfStr)
  {
    var c := Coerce(o, intOfStr);
    CoerceSpec(o, intOfStr);
    match c.status
    case AllConverted => Returns(Settle(c.obj, total))
    case ConversionFailed => Returns(Parsed(c.obj, InvalidValues, []))
    case OverflowRaised => Raises(IntOverflow)
  }

  /** `parse_allocation` as written: the corrected parser's steps, except
      that the two exceptions above leave it. Whenever it returns, it
      returns what `Parse` does, so the refusal request and the error codes
      are the same; it never raises on a reply without a candidate. */
  function ParseAsWritten(text: string, total: int, checker: Option<Model>, rt: Runtime): (r: ParseOutcome)
    ensures r.Returns? ==> r.parsed == Parse(text, total, checker, rt)
    ensures r.Raises? ==> |Spans(text)| > 0
    ensures r.Raises? ==> (r.error == DecoderLimit <==> rt.loads(LastCandidate(text)).None?)
  {
    if |Spans(text)| == 0 then
      var c := CheckRefusal(checker, text, rt.loads);
      Returns(Parsed(map[], if Truthy(c.verdict) then Refusal else NoJson, c.requests))
    else
      match rt.loads(LastCandidate(text))
      case None =>
        if rt.escapes(LastCandidate(text)) then Raises(DecoderLimit)
        else Returns(Parsed(map[], InvalidJson, []))
      case Some(o) => DecideAsWritten(o, total, rt.intOfStr)
  }

  /** The last candidate does not decode, and the decoder's error is not a
      `JSONDecodeError`. */
  predicate DecoderEscapes(text: string, rt: Runtime)
  {
    && |Spans(text)| > 0
    && rt.loads(LastCandidate(text)).None?
    && rt.escapes(LastCandidate(text))
  }

  /** The last candidate decodes and one of its halves is an infinite float
      reached by the coercion loop. */
  predicate Overflows(text: string, rt: Runtime)
  {
    && |Spans(text)| > 0
    && rt.loads(LastCandidate(text)).Some?
    && Coerce(rt.loads(LastCandidate(text)).value, rt.intOfStr).status.OverflowRaised?
  }

  /** Either exception leaves the parser. */
  predicate ParserRaises(text: string, rt: Runtime)
  {
    DecoderEscapes(text, rt) || Overflows(text, rt)
  }

  /** The parser as written raises the decoder's error exactly when it is not
      a `JSONDecodeError`, raises `OverflowError` exactly on an infinite half,
      and agrees with the corrected parser everywhere else. On those inputs
      the corrected parser reports INVALID_JSON, and INVALID_VALUES with the
      decoded object kept. */
  lemma AsWrittenDiffersOnlyWhenRaising(text: string, total: int, checker: Option<Model>, rt: Runtime)
    ensures ParseAsWritten(text, total, checker, rt) == Raises(DecoderLimit) <==> DecoderEscapes(text, rt)
    ensures ParseAsWritten(text, total, checker, rt) == Raises(IntOverflow) <==> Overflows(text, rt)
    ensures !ParserRaises(text, rt) ==> ParseAsWritten(text, total, checker, rt) == Returns(Parse(text, total, checker, rt))
    ensures DecoderEscapes(text, rt) ==> Parse(text, total, checker, rt) == Parsed(map[], InvalidJson, [])
    ensures Overflows(text, rt)
            ==> Parse(text, total, checker, rt)
                == Parsed(Coerce(rt.loads(LastCandidate(text)).value, rt.intOfStr).obj, InvalidValues, [])
  {
    if |Spans(text)| > 0 && rt.loads(LastCandidate(text)).Some? {
      CoerceSpec(rt.loads(LastCandidate(text)).value, rt.intOfStr);
    }
  }

  /** The reply `{"alloc0": 1e400}`: Python's decoder reads the number as
      `inf`, and `int(inf)` raises `OverflowError` out of the parser. */
  const OverflowText: string := "{\"alloc0\": 1e400}"

  lemma OverflowEscapes(rt: Runtime)
    requires rt.loads(OverflowText) == Some(map[Alloc0 := Num(PosInf)])
    ensures ParseAsWritten(OverflowText, 100, None, rt) == Raises(IntOverflow)
    ensures Parse(OverflowText, 100, None, rt) == Parsed(map[Alloc0 := Num(PosInf)], InvalidValues, [])
  {
    SingleCandidate(OverflowText);
    AsWrittenDiffersOnlyWhenRaising(OverflowText, 100, None, rt);
    CoerceSpec(map[Alloc0 := Num(PosInf)], rt.intOfStr);
  }

  /** The reply `{"alloc0": 1000...0}` with 4300 zeros: an integer literal of
      4301 digits, over the default limit of 4300 digits on converting a
      decimal string to `int`, so the decoder raises `ValueError`, which
      escapes the parser. */
  function DigitLimitText(): (t: string)
    ensures |t| == 4313 && t[0] == '{' && t[|t| - 1] == '}'
    ensures forall k :: 0 < k < |t| - 1 ==> t[k] != '{' && t[k] != '}'
  {
    "{\"alloc0\": 1" + seq(4300, _ => '0') + "}"
  }

  lemma DigitLimitEscapes(rt: Runtime)
    requires rt.loads(DigitLimitText()).None? && rt.escapes(DigitLimitText())
    ensures ParseAsWritten(DigitLimitText(), 100, None, rt) == Raises(DecoderLimit)
    ensures Parse(DigitLimitText(), 100, None, rt) == Parsed(map[], InvalidJson, [])
  {
    SingleCandidate(DigitLimitText());
    AsWrittenDiffersOnlyWhenRaising(DigitLimitText(), 100, None, rt);
  }

  // ---------------------------------------------------------------------
  // Properties of the parser

  /** No candidate: the checker decides between REFUSAL and NO_JSON, with an
      empty allocation; without a checker the answer is NO_JSON. */
  lemma NoCandidateOutcome(text: string, total: int, checker: Option<Model>, rt: Runtime)
    requires |Spans(text)| == 0
    ensures Parse(text, total, checker, rt).allocation == map[]
    ensures Parse(text, total, checker, rt).error
            == (if Truthy(CheckRefusal(checker, text, rt.loads).verdict) then Refusal else NoJson)
    ensures checker.None? ==> Parse(text, total, checker, rt).error == NoJson
  {
  }

  /** A truncated object such as `{"alloc0": 60, "alloc1": 40` has no
      candidate, so it goes to the refusal check. */
  lemma TruncatedObjectHasNoCandidate(text: string)
    requires '}' !in text
    ensures |Spans(text)| == 0
  {
    NoCloseNoCandidates(text);
  }

  /** Only the last candidate is decoded: when it fails, the answer is
      INVALID_JSON with an empty allocation, whatever came before it. */
  lemma LastCandidateDecides(text: string, total: int, checker: Option<Model>, rt: Runtime)
    requires |Spans(text)| > 0
    ensures rt.loads(LastCandidate(text)).None?
            ==> Parse(text, total, checker, rt) == Parsed(map[], InvalidJson, [])
    ensures rt.loads(LastCandidate(text)).Some?
            ==> Parse(text, total, checker, rt) == Decide(rt.loads(LastCandidate(text)).value, total, rt.intOfStr)
  {
  }

  /** A conversion failure reports INVALID_VALUES and returns the decoded
      object with its keys intact; `alloc0` is already converted when only
      `alloc1` failed. */
  lemma ConversionFailureKeepsObject(o: Obj, total: int, intOfStr: string -> Option<int>)
    requires !(Convertible(o, Alloc0, intOfStr) && Convertible(o, Alloc1, intOfStr))
    ensures Decide(o, total, intOfStr).error == InvalidValues
    ensures Decide(o, total, intOfStr).allocation.Keys == o.Keys
    ensures forall k :: k in o && k != Alloc0 ==> Decide(o, total, intOfStr).allocation[k] == o[k]
    ensures Alloc0 in o && PyInt(o[Alloc0], intOfStr).Converted?
            ==> Decide(o, total, intOfStr).allocation[Alloc0] == Int(PyInt(o[Alloc0], intOfStr).n)
    ensures !Convertible(o, Alloc0, intOfStr) ==> Decide(o, total, intOfStr).allocation == o
  {
    CoerceSpec(o, intOfStr);
  }

  /** When both halves convert: a single half is completed to the total (so
      never SUM_MISMATCH), no half at all is MISSING_ALLOC with an empty
      allocation, and every other key of the decoded object is kept. */
  lemma InferenceCompletesTheSum(o: Obj, total: int, intOfStr: string -> Option<int>)
    requires Convertible(o, Alloc0, intOfStr) && Convertible(o, Alloc1, intOfStr)
    ensures Alloc0 !in o && Alloc1 !in o ==> Decide(o, total, intOfStr) == Parsed(map[], MissingAlloc, [])
    ensures (Alloc0 in o) != (Alloc1 in o) ==> Decide(o, total, intOfStr).error in {Success, Negative}
    ensures (Alloc0 in o) != (Alloc1 in o)
            ==> Decide(o, total, intOfStr).allocation[Alloc0].n + Decide(o, total, intOfStr).allocation[Alloc1].n == total
    ensures Alloc0 in o || Alloc1 in o
            ==> forall k :: k in o && k != Alloc0 && k != Alloc1 ==> Decide(o, total, intOfStr).allocation[k] == o[k]
  {
    CoerceSpec(o, intOfStr);
    var p := Decide(o, total, intOfStr);
    if (Alloc0 in o) != (Alloc1 in o) {
      assert p.error.Judged() && p.error != SumMismatch;
    }
  }

  /** An allocation is returned empty exactly on the four discarding
      outcomes; every other outcome keeps what was decoded. */
  lemma EmptyAllocationIffDiscarded(text: string, total: int, checker: Option<Model>, rt: Runtime)
    ensures Parse(text, total, checker, rt).allocation == map[]
            <==> Parse(text, total, checker, rt).error.Discards()
  {
    if |Spans(text)| > 0 && rt.loads(LastCandidate(text)).Some? {
      var o := rt.loads(LastCandidate(text)).value;
      CoerceSpec(o, rt.intOfStr);
      var c := Coerce(o, rt.intOfStr);
      if !c.status.AllConverted? {
        assert Alloc0 in c.obj || Alloc1 in c.obj;
      } else if Alloc0 in c.obj || Alloc1 in c.obj {
        assert Alloc0 in Parse(text, total, checker, rt).allocation;
      }
    }
  }

  /** Outcomes that judged the halves return them both as integers. */
  lemma JudgedHasBothHalves(text: string, total: int, checker: Option<Model>, rt: Runtime)
    requires Parse(text, total, checker, rt).error.Judged()
    ensures BothInts(Parse(text, total, checker, rt).allocation)
  {
    if |Spans(text)| > 0 && rt.loads(LastCandidate(text)).Some? {
      CoerceSpec(rt.loads(LastCandidate(text)).value, rt.intOfStr);
    }
  }

  /** Reasoning text before the final answer, as long as each of its `{`
      is closed, does not change the parse. */
  lemma PreambleDoesNotMatter(a: string, b: string, total: int, checker: Option<Model>, rt: Runtime)
    requires EveryOpenClosed(a)
    requires |Spans(b)| > 0
    ensures Parse(a + b, total, checker, rt) == Parse(b, total, checker, rt)
  {
    FinalAnswerIsLastCandidate(a, b);
  }

  // ---------------------------------------------------------------------
  // The validator (`validate_allocation`)

  /** `validate_allocation`'s outcome: no exception, a `KeyError` for a
      missing half, or a `ValueError` with its message. */
  datatype Validation = Valid | KeyError(key: string) | ValueError(message: string)

  const NotIntegersMessage: string := "Allocations must be integers"
  const NegativeMessage: string := "Allocations cannot be negative"

  function SumMessage(total: int): string
  {
    "Allocations must sum to " + Decimal(total)
  }

  /** `validate_allocation` on a game whose `total_amount` is `total`. The
      `or` short-circuits, so a non-integer `alloc0` is reported before a
      missing `alloc1` is looked up; a `bool` counts as an integer. */
  function Validate(a: Obj, total: int): (v: Validation)
    ensures v == Valid <==>
              && Alloc0 in a && Alloc1 in a && IsPyInt(a[Alloc0]) && IsPyInt(a[Alloc1])
              && IntOf(a[Alloc0]) >= 0 && IntOf(a[Alloc1]) >= 0
              && IntOf(a[Alloc0]) + IntOf(a[Alloc1]) == total
    ensures Alloc0 !in a ==> v == KeyError(Alloc0)
    ensures v.KeyError? ==> v.key == Alloc0 || v.key == Alloc1
  {
    if Alloc0 !in a then KeyError(Alloc0)
    else if !IsPyInt(a[Alloc0]) then ValueError(NotIntegersMessage)
    else if Alloc1 !in a then KeyError(Alloc1)
    else if !IsPyInt(a[Alloc1]) then ValueError(NotIntegersMessage)
    else if IntOf(a[Alloc0]) < 0 || IntOf(a[Alloc1]) < 0 then ValueError(NegativeMessage)
    else if IntOf(a[Alloc0]) + IntOf(a[Alloc1]) != total then ValueError(SumMessage(total))
    else Valid
  }

  /** The validator checks types, then signs, then the sum. */
  lemma ValidationOrder(a: Obj, total: int)
    requires Alloc0 in a && Alloc1 in a
    ensures !IsPyInt(a[Alloc0]) || !IsPyInt(a[Alloc1]) ==> Validate(a, total) == ValueError(NotIntegersMessage)
    ensures IsPyInt(a[Alloc0]) && IsPyInt(a[Alloc1]) && (IntOf(a[Alloc0]) < 0 || IntOf(a[Alloc1]) < 0)
            ==> Validate(a, total) == ValueError(NegativeMessage)
    ensures IsPyInt(a[Alloc0]) && IsPyInt(a[Alloc1]) && IntOf(a[Alloc0]) >= 0 && IntOf(a[Alloc1]) >= 0
            && IntOf(a[Alloc0]) + IntOf(a[Alloc1]) != total
            ==> Validate(a, total) == ValueError(SumMessage(total))
  {
  }

  /** The parser succeeds exactly when the validator accepts what it
      returns, and the validator names the parser's NEGATIVE and
      SUM_MISMATCH findings with its own messages. */
  lemma ValidateAgreesWithParse(text: string, total: int, checker: Option<Model>, rt: Runtime)
    ensures Parse(text, total, checker, rt).error == Success
            <==> Validate(Parse(text, total, checker, rt).allocation, total) == Valid
    ensures Parse(text, total, checker, rt).error == Negative
            ==> Validate(Parse(text, total, checker, rt).allocation, total) == ValueError(NegativeMessage)
    ensures Parse(text, total, checker, rt).error == SumMismatch
            ==> Validate(Parse(text, total, checker, rt).allocation, total) == ValueError(SumMessage(total))
  {
    var p := Parse(text, total, checker, rt);
    EmptyAllocationIffDiscarded(text, total, checker, rt);
    if p.error.Judged() {
      JudgedHasBothHalves(text, total, checker, rt);
    } else if p.error == InvalidValues {
      var o := rt.loads(LastCandidate(text)).value;
      CoerceSpec(o, rt.intOfStr);
      FailedValueIsNotInt(o, rt.intOfStr);
    }
  }

  /** A value `int()` rejects is not an integer, so a failed conversion
      leaves the validator something to refuse. */
  lemma FailedValueIsNotInt(o: Obj, intOfStr: string -> Option<int>)
    requires !(Convertible(o, Alloc0, intOfStr) && Convertible(o, Alloc1, intOfStr))
    ensures Validate(Coerce(o, intOfStr).obj, 0) != Valid
    ensures forall total :: Validate(Coerce(o, intOfStr).obj, total) != Valid
  {
    CoerceSpec(o, intOfStr);
    AllocKeysDiffer();
  }

  /** The source's own examples, on the decoded object, with a total of 100. */
  lemma ParseExamples(intOfStr: string -> Option<int>)
    ensures Decide(map[Alloc0 := Int(-10), Alloc1 := Int(110)], 100, intOfStr).error == Negative
    ensures Decide(map[Alloc0 := Int(70), Alloc1 := Int(40)], 100, intOfStr).error == SumMismatch
    ensures Decide(map[Alloc0 := Int(60)], 100, intOfStr) == Parsed(map[Alloc0 := Int(60), Alloc1 := Int(40)], Success, [])
    ensures Decide(map[Alloc0 := Num(Finite(60.5)), Alloc1 := Num(Finite(39.5))], 100, intOfStr)
            == Parsed(map[Alloc0 := Int(60), Alloc1 := Int(39)], SumMismatch, [])
  {
    AllocKeysDiffer();
    TruncationExamples(intOfStr);
    CoerceSpec(map[Alloc0 := Int(-10), Alloc1 := Int(110)], intOfStr);
    CoerceSpec(map[Alloc0 := Int(70), Alloc1 := Int(40)], intOfStr);
    var single := map[Alloc0 := Int(60)];
    CoerceSpec(single, intOfStr);
    assert Coerce(single, intOfStr).obj == single;
    assert single[Alloc1 := Int(40)] == map[Alloc0 := Int(60), Alloc1 := Int(40)];
    var floats := map[Alloc0 := Num(Finite(60.5)), Alloc1 := Num(Finite(39.5))];
    CoerceSpec(floats, intOfStr);
    assert Coerce(floats, intOfStr).obj == map[Alloc0 := Int(60), Alloc1 := Int(39)];
  }

  /** The validator refuses floats even where the parser would truncate them. */
  lemma ValidateExamples()
    ensures Validate(map[Alloc0 := Int(60), Alloc1 := Int(40)], 100) == Valid
    ensures Validate(map[Alloc0 := Num(Finite(60.5)), Alloc1 := Num(Finite(39.5))], 100) == ValueError(NotIntegersMessage)
    ensures Validate(map[Alloc0 := Int(-10), Alloc1 := Int(110)], 100) == ValueError(NegativeMessage)
    ensures Validate(map[Alloc0 := Int(70), Alloc1 := Int(40)], 100) == ValueError(SumMessage(100))
    ensures Validate(map[Alloc0 := Bool(true), Alloc1 := Int(99)], 100) == Valid
  {
    AllocKeysDiffer();
  }

  // ---------------------------------------------------------------------
  // Prompt construction

  /** The prompts a game sends: system prompt (possibly `None`) and user prompt. */
  datatype Prompts = Prompts(system: Option<string>, user: string)

  const TotalPlaceholder: string := "{TOTAL_AMOUNT}"
  const PartnerPlaceholder: string := "{PARTNER_NAME}"

  lemma TotalPlaceholderNotNumeric()
    ensures forall i :: 0 <= i < |TotalPlaceholder| ==> !NumericChar(TotalPlaceholder[i])
  {
  }

  /** Substituting a rendered amount for the total's placeholder leaves no
      placeholder behind: an amount has no brace or letter to rebuild one. */
  lemma AmountLeavesNoPlaceholder(s: string, amount: string)
    requires |amount| > 0
    requires forall j :: 0 <= j < |amount| ==> NumericChar(amount[j])
    ensures !Contains(Replace(s, TotalPlaceholder, amount), TotalPlaceholder)
  {
    TotalPlaceholderNotNumeric();
    ReplaceLeavesNoOccurrence(s, TotalPlaceholder, amount);
  }

  /** `SimpleDGame.get_prompts`: the loaded prompts, with the plain decimal
      total in the user prompt. */
  function SimplePrompts(user: string, system: Option<string>, total: int): (p: Prompts)
    ensures p.system == system
    ensures !Contains(p.user, TotalPlaceholder)
  {
    DecimalIsNumeric(total);
    AmountLeavesNoPlaceholder(user, Decimal(total));
    Prompts(system, Replace(user, TotalPlaceholder, Decimal(total)))
  }

  /** A prompt without the placeholder is sent as loaded. */
  lemma PromptWithoutPlaceholderIsKept(user: string, system: Option<string>, total: int)
    requires !Contains(user, TotalPlaceholder)
    ensures SimplePrompts(user, system, total).user == user
  {
    ReplaceWithoutOccurrence(user, TotalPlaceholder, Decimal(total));
  }

  /** `CityBudgetDGame.get_prompts`: the partner's name first, then the
      comma-grouped total. */
  function CityBudgetPrompts(template: string, system: string, partner: string, total: int): (p: Prompts)
    ensures p.system == Some(system)
    ensures !Contains(p.user, TotalPlaceholder)
  {
    var named := Replace(template, PartnerPlaceholder, partner);
    GroupThousandsMatchesDecimal(total);
    AmountLeavesNoPlaceholder(named, GroupThousands(total));
    Prompts(Some(system), Replace(named, TotalPlaceholder, GroupThousands(total)))
  }

  /** The placeholder becomes `str(total)` where it stood: text before it
      (without a `{`) is kept, and the rest is substituted the same way. */
  lemma SimpleStatesTotal(pre: string, post: string, system: Option<string>, total: int)
    requires '{' !in pre
    ensures SimplePrompts(pre + TotalPlaceholder + post, system, total).user
            == pre + Decimal(total) + SimplePrompts(post, system, total).user
  {
    ReplaceAfterCleanPrefix(pre, TotalPlaceholder, post, Decimal(total));
  }

  /** The partner's name stands where its placeholder stood, and is not
      touched by the later substitution of the total. */
  lemma CityBudgetNamesPartner(pre: string, post: string, system: string, partner: string, total: int)
    requires '{' !in pre && '{' !in partner
    ensures CityBudgetPrompts(pre + PartnerPlaceholder + post, system, partner, total).user
            == pre + partner + CityBudgetPrompts(post, system, partner, total).user
  {
    var named := Replace(post, PartnerPlaceholder, partner);
    var amount := GroupThousands(total);
    assert Replace(pre + PartnerPlaceholder + post, PartnerPlaceholder, partner) == pre + partner + named by {
      ReplaceAfterCleanPrefix(pre, PartnerPlaceholder, post, partner);
    }
    assert Replace(pre + partner + named, TotalPlaceholder, amount) == pre + partner + Replace(named, TotalPlaceholder, amount) by {
      ReplaceCleanPrefix(pre + partner, named, TotalPlaceholder, amount);
    }
  }

  /** The comma-grouped total stands where its placeholder stood. */
  lemma CityBudgetStatesTotal(pre: string, post: string, system: string, partner: string, total: int)
    requires '{' !in pre
    ensures CityBudgetPrompts(pre + TotalPlaceholder + post, system, partner, total).user
            == pre + GroupThousands(total) + CityBudgetPrompts(post, system, partner, total).user
  {
    var named := Replace(post, PartnerPlaceholder, partner);
    var amount := GroupThousands(total);
    assert Replace(pre + TotalPlaceholder + post, PartnerPlaceholder, partner) == pre + TotalPlaceholder + named by {
      assert '{' !in TotalPlaceholder[1..];
      ReplaceSkipsOther(pre, TotalPlaceholder, post, PartnerPlaceholder, partner, 1);
    }
    assert Replace(pre + TotalPlaceholder + named, TotalPlaceholder, amount) == pre + amount + Replace(named, TotalPlaceholder, amount) by {
      ReplaceAfterCleanPrefix(pre, TotalPlaceholder, named, amount);
    }
  }

  // ---------------------------------------------------------------------
  // One game (`run_game`)

  /** The base game's settings: `total_amount` and `max_tokens`. */
  datatype Settings = Settings(total: int, maxTokens: int)

  /** The identifiers a game draws from `uuid4` and the clock. */
  datatype Meta = Meta(gameId: string, timestamp: string)

  /** A result dictionary. */
  type Record = map<string, Value>

  const BaseKeys: set<string> :=
    {"game_id", "model", "timestamp", "error", "input_tokens_used", "output_tokens_used", "response", "alloc0", "alloc1"}

  /** The request a game sends to its player. */
  function GameRequest(s: Settings, prompts: Prompts): (q: Request)
    ensures q.system == prompts.system && q.user == prompts.user && q.maxTokens == s.maxTokens
  {
    Request(prompts.system, prompts.user, s.maxTokens)
  }

  /** The record before the parsed allocation is merged in. */
  function BaseRecord(meta: Meta, model: string, text: string, inputTokens: int, outputTokens: int, error: ErrorCode): (r: Record)
    ensures r.Keys == BaseKeys
  {
    map[
      "game_id" := Str(meta.gameId),
      "model" := Str(model),
      "timestamp" := Str(meta.timestamp),
      "error" := Str(error.Code()),
      "input_tokens_used" := Int(inputTokens),
      "output_tokens_used" := Int(outputTokens),
      "response" := Str(text),
      "alloc0" := Null,
      "alloc1" := Null
    ]
  }

  /** The result dictionary: metadata, both halves `None`, then
      `result.update(allocation)` when the allocation is non-empty, so every
      parsed key overwrites. */
  function MakeRecord(meta: Meta, model: string, text: string, inputTokens: int, outputTokens: int, p: Parsed): (r: Record)
    ensures r.Keys == BaseKeys + p.allocation.Keys
    ensures forall k :: k in p.allocation ==> r[k] == p.allocation[k]
    ensures p.allocation == map[] ==> r[Alloc0] == Null && r[Alloc1] == Null
    ensures "error" !in p.allocation ==> r["error"] == Str(p.error.Code())
    ensures "model" !in p.allocation ==> r["model"] == Str(model)
    ensures "response" !in p.allocation ==> r["response"] == Str(text)
  {
    var base := BaseRecord(meta, model, text, inputTokens, outputTokens, p.error);
    if |p.allocation| > 0 then base + p.allocation else base
  }

  /** `run_game`: one call to the player, then the parse with the player
      itself as the refusal checker. An exception from the call propagates
      (`None`). */
  function RunGame(s: Settings, prompts: Prompts, player: Model, meta: Meta, rt: Runtime): (r: Option<Record>)
    ensures r.None? <==> player.respond(GameRequest(s, prompts)).Raised?
    ensures r.Some? ==> r.value.Keys >= BaseKeys
  {
    match player.respond(GameRequest(s, prompts))
    case Raised => None
    case Generated(text, inputTokens, outputTokens) =>
      Some(MakeRecord(meta, player.name, text, inputTokens, outputTokens, Parse(text, s.total, Some(player), rt)))
  }

  /** `run_game` as written: the call to the player, then the parser as
      written, whose uncaught exceptions end the game like a failed call.
      Whenever it returns, it returns the corrected game's record. */
  function RunGameAsWritten(s: Settings, prompts: Prompts, player: Model, meta: Meta, rt: Runtime): (r: Option<Record>)
    ensures r.None? <==> player.respond(GameRequest(s, prompts)).Raised?
                         || ParserRaises(player.respond(GameRequest(s, prompts)).text, rt)
    ensures r.Some? ==> r == RunGame(s, prompts, player, meta, rt)
  {
    match player.respond(GameRequest(s, prompts))
    case Raised => None
    case Generated(text, inputTokens, outputTokens) =>
      AsWrittenDiffersOnlyWhenRaising(text, s.total, Some(player), rt);
      match ParseAsWritten(text, s.total, Some(player), rt)
      case Raises(_) => None
      case Returns(p) => Some(MakeRecord(meta, player.name, text, inputTokens, outputTokens, p))
  }

  /** The parse a game's record reports. */
  function GameParse(s: Settings, prompts: Prompts, player: Model, rt: Runtime): Parsed
    requires player.respond(GameRequest(s, prompts)).Generated?
  {
    Parse(player.respond(GameRequest(s, prompts)).text, s.total, Some(player), rt)
  }

  /** A record's halves: `None` when the parse discarded the allocation,
      integers when it judged them, and on success a valid split. */
  lemma RecordHalves(s: Settings, prompts: Prompts, player: Model, meta: Meta, rt: Runtime)
    requires player.respond(GameRequest(s, prompts)).Generated?
    ensures GameParse(s, prompts, player, rt).error.Discards()
            ==> RunGame(s, prompts, player, meta, rt).value[Alloc0] == Null
                && RunGame(s, prompts, player, meta, rt).value[Alloc1] == Null
    ensures GameParse(s, prompts, player, rt).error.Judged()
            ==> RunGame(s, prompts, player, meta, rt).value[Alloc0].Int?
                && RunGame(s, prompts, player, meta, rt).value[Alloc1].Int?
    ensures GameParse(s, prompts, player, rt).error == Success
            ==> Validate(RunGame(s, prompts, player, meta, rt).value, s.total) == Valid
  {
    var text := player.respond(GameRequest(s, prompts)).text;
    var p := GameParse(s, prompts, player, rt);
    EmptyAllocationIffDiscarded(text, s.total, Some(player), rt);
    if p.error.Judged() {
      JudgedHasBothHalves(text, s.total, Some(player), rt);
    }
    if p.error == Success {
      ValidateAgreesWithParse(text, s.total, Some(player), rt);
      var r := RunGame(s, prompts, player, meta, rt).value;
      assert r[Alloc0] == p.allocation[Alloc0] && r[Alloc1] == p.allocation[Alloc1];
    }
  }

  /** The player is its own refusal checker: a reply without candidate gets
      one more request, and its verdict decides REFUSAL. */
  lemma PlayerChecksItsOwnRefusal(s: Settings, prompts: Prompts, player: Model, meta: Meta, rt: Runtime)
    requires player.respond(GameRequest(s, prompts)).Generated?
    requires |Spans(player.respond(GameRequest(s, prompts)).text)| == 0
    ensures GameParse(s, prompts, player, rt).requests
            == [RefusalRequest(player.respond(GameRequest(s, prompts)).text)]
    ensures RunGame(s, prompts, player, meta, rt).value["error"]
            == (if Truthy(ReplyVerdict(player.respond(RefusalRequest(player.respond(GameRequest(s, prompts)).text)), rt.loads))
                then Str("REFUSAL") else Str("NO_JSON"))
  {
  }

  // ---------------------------------------------------------------------
  // A batch of games (`run_batch`)

  /** The player across a batch: one name, and a fresh draw of replies and
      identifiers for each game. */
  datatype Session = Session(name: string, respond: nat -> (Request -> Reply), meta: nat -> Meta)

  function Player(ss: Session, i: nat): Model
  {
    Model(ss.name, ss.respond(i))
  }

  /** The `i`-th game of a batch. */
  function Game(s: Settings, prompts: Prompts, ss: Session, i: nat, rt: Runtime): (r: Option<Record>)
    ensures r.None? <==> Player(ss, i).respond(GameRequest(s, prompts)).Raised?
  {
    RunGame(s, prompts, Player(ss, i), ss.meta(i), rt)
  }

  /** `f"batch_{stamp}"`. */
  function BatchId(stamp: string): string
  {
    "batch_" + stamp
  }

  /** `if experiment_id:` */
  predicate Given(experimentId: Option<string>)
  {
    experimentId.Some? && |experimentId.value| > 0
  }

  /** A record tagged with the batch id, and with the experiment id when one
      is given; the tags overwrite keys of the same name. */
  function Tag(r: Record, batchId: string, experimentId: Option<string>): (t: Record)
    ensures t.Keys == r.Keys + {"batch_id"} + (if Given(experimentId) then {"experiment_id"} else {})
    ensures t["batch_id"] == Str(batchId)
    ensures Given(experimentId) ==> t["experiment_id"] == Str(experimentId.value)
    ensures forall k :: k in r && k != "batch_id" && (k != "experiment_id" || !Given(experimentId)) ==> t[k] == r[k]
  {
    var withBatch := r["batch_id" := Str(batchId)];
    if Given(experimentId) then withBatch["experiment_id" := Str(experimentId.value)] else withBatch
  }

  /** The first `k` of a sequence of games, tagged, in order; an exception in
      any game propagates out of the batch. */
  function Batch(games: nat -> Option<Record>, k: nat, batchId: string, experimentId: Option<string>)
    : (rs: Option<seq<Record>>)
    ensures rs.Some? ==> |rs.value| == k
    ensures rs.Some? ==> forall i :: 0 <= i < k ==>
              games(i).Some? && rs.value[i] == Tag(games(i).value, batchId, experimentId)
    decreases k
  {
    if k == 0 then Some([])
    else
      match Batch(games, k - 1, batchId, experimentId)
      case None => None
      case Some(prev) =>
        match games(k - 1)
        case None => None
        case Some(r) => Some(prev + [Tag(r, batchId, experimentId)])
  }

  /** A batch fails exactly when one of its games raises. */
  lemma {:induction false} BatchFailsIffSomeGameFails(games: nat -> Option<Record>, k: nat, batchId: string, experimentId: Option<string>)
    ensures Batch(games, k, batchId, experimentId).None? <==> exists i :: 0 <= i < k && games(i).None?
    decreases k
  {
    if k > 0 {
      BatchFailsIffSomeGameFails(games, k - 1, batchId, experimentId);
    }
  }

  /** Every record of a batch carries the batch id, carries the experiment
      id exactly when one is given (or when the model's own answer put that
      key there), and otherwise keeps its game's record. */
  lemma BatchRecords(games: nat -> Option<Record>, k: nat, batchId: string, experimentId: Option<string>, i: nat)
    requires Batch(games, k, batchId, experimentId).Some?
    requires i < k
    ensures games(i).Some?
    ensures Batch(games, k, batchId, experimentId).value[i]["batch_id"] == Str(batchId)
    ensures "experiment_id" in Batch(games, k, batchId, experimentId).value[i]
            <==> Given(experimentId) || "experiment_id" in games(i).value
    ensures Given(experimentId) ==> Batch(games, k, batchId, experimentId).value[i]["experiment_id"] == Str(experimentId.value)
    ensures forall key :: key in games(i).value && key != "batch_id" && key != "experiment_id" ==>
              Batch(games, k, batchId, experimentId).value[i][key] == games(i).value[key]
  {
  }

  /** `run_batch`: `range(n)` games (none for `n <= 0`) under one batch id,
      each game with its own draw of the player. */
  function RunBatch(s: Settings, prompts: Prompts, ss: Session, n: int, stamp: string, experimentId: Option<string>, rt: Runtime)
    : (rs: Option<seq<Record>>)
    ensures rs.Some? ==> |rs.value| == (if n < 0 then 0 else n)
  {
    Batch(GamesOf(s, prompts, ss, rt), if n < 0 then 0 else n, BatchId(stamp), experimentId)
  }

  /** The games of a batch, as one function of the game's index. */
  function GamesOf(s: Settings, prompts: Prompts, ss: Session, rt: Runtime): (games: nat -> Option<Record>)
    ensures forall i: nat :: games(i) == Game(s, prompts, ss, i, rt)
  {
    (i: nat) => Game(s, prompts, ss, i, rt)
  }

  /** Game `i` of a batch fails exactly when its call to the player raises. */
  lemma GameFails(s: Settings, prompts: Prompts, ss: Session, rt: Runtime, i: nat)
    ensures GamesOf(s, prompts, ss, rt)(i).None? <==> ss.respond(i)(GameRequest(s, prompts)).Raised?
  {
  }

  /** `run_batch` raises exactly when one of its `n` calls to the player
      raises; otherwise it returns `n` records. */
  lemma RunBatchFailsIffSomeCallRaises(s: Settings, prompts: Prompts, ss: Session, n: int, stamp: string,
                                       experimentId: Option<string>, rt: Runtime)
    ensures RunBatch(s, prompts, ss, n, stamp, experimentId, rt).None?
            <==> exists i: nat :: i < n && ss.respond(i)(GameRequest(s, prompts)).Raised?
  {
    var games := GamesOf(s, prompts, ss, rt);
    var k: nat := if n < 0 then 0 else n;
    BatchFailsIffSomeGameFails(games, k, BatchId(stamp), experimentId);
    forall i: nat | i < k
      ensures games(i).None? <==> ss.respond(i)(GameRequest(s, prompts)).Raised?
    {
      GameFails(s, prompts, ss, rt, i);
    }
  }

  /** The games of a batch as written, as one function of the game's index. */
  function GamesAsWrittenOf(s: Settings, prompts: Prompts, ss: Session, rt: Runtime): (games: nat -> Option<Record>)
    ensures forall i: nat :: games(i) == RunGameAsWritten(s, prompts, Player(ss, i), ss.meta(i), rt)
  {
    (i: nat) => RunGameAsWritten(s, prompts, Player(ss, i), ss.meta(i), rt)
  }

  /** `run_batch` as written: the same loop over the games as written. */
  function RunBatchAsWritten(s: Settings, prompts: Prompts, ss: Session, n: int, stamp: string, experimentId: Option<string>, rt: Runtime)
    : (rs: Option<seq<Record>>)
    ensures rs.Some? ==> |rs.value| == (if n < 0 then 0 else n)
  {
    Batch(GamesAsWrittenOf(s, prompts, ss, rt), if n < 0 then 0 else n, BatchId(stamp), experimentId)
  }

  /** Two game sequences that agree wherever the first returns give the
      same batch whenever the first batch returns. */
  lemma {:induction false} BatchAgrees(g1: nat -> Option<Record>, g2: nat -> Option<Record>, k: nat, batchId: string, experimentId: Option<string>)
    requires forall i :: 0 <= i < k && g1(i).Some? ==> g2(i) == g1(i)
    ensures Batch(g1, k, batchId, experimentId).Some? ==> Batch(g2, k, batchId, experimentId) == Batch(g1, k, batchId, experimentId)
    decreases k
  {
    if k > 0 && Batch(g1, k, batchId, experimentId).Some? {
      BatchAgrees(g1, g2, k - 1, batchId, experimentId);
      assert Batch(g1, k - 1, batchId, experimentId).Some? && g1(k - 1).Some?;
      assert g2(k - 1) == g1(k - 1);
    }
  }

  /** `run_batch` as written raises exactly when, in one of its `n` games,
      the call to the player raises or the parser lets an exception out of
      the reply. */
  lemma RunBatchAsWrittenFails(s: Settings, prompts: Prompts, ss: Session, n: int, stamp: string,
                               experimentId: Option<string>, rt: Runtime)
    ensures RunBatchAsWritten(s, prompts, ss, n, stamp, experimentId, rt).None?
            <==> exists i: nat :: i < n && (ss.respond(i)(GameRequest(s, prompts)).Raised?
                                           || ParserRaises(ss.respond(i)(GameRequest(s, prompts)).text, rt))
  {
    var written := GamesAsWrittenOf(s, prompts, ss, rt);
    var k: nat := if n < 0 then 0 else n;
    BatchFailsIffSomeGameFails(written, k, BatchId(stamp), experimentId);
    forall i: nat | i < k
      ensures written(i).None? <==> (ss.respond(i)(GameRequest(s, prompts)).Raised?
                                     || ParserRaises(ss.respond(i)(GameRequest(s, prompts)).text, rt))
    {
      assert written(i) == RunGameAsWritten(s, prompts, Player(ss, i), ss.meta(i), rt);
    }
  }

  /** Whenever `run_batch` as written returns, it returns the corrected
      batch. */
  lemma AsWrittenBatchIsBatch(s: Settings, prompts: Prompts, ss: Session, n: int, stamp: string,
                              experimentId: Option<string>, rt: Runtime)
    ensures RunBatchAsWritten(s, prompts, ss, n, stamp, experimentId, rt).Some?
            ==> RunBatchAsWritten(s, prompts, ss, n, stamp, experimentId, rt) == RunBatch(s, prompts, ss, n, stamp, experimentId, rt)
  {
    var written := GamesAsWrittenOf(s, prompts, ss, rt);
    var games := GamesOf(s, prompts, ss, rt);
    var k: nat := if n < 0 then 0 else n;
    forall i | 0 <= i < k && written(i).Some?
      ensures games(i) == written(i)
    {
      assert written(i) == RunGameAsWritten(s, prompts, Player(ss, i), ss.meta(i), rt);
    }
    BatchAgrees(written, games, k, BatchId(stamp), experimentId);
  }
}
