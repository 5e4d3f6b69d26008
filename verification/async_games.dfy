/** The asynchronous game (`AsyncDictatorGame`): its line-for-line copies of
    the candidate scan, the coercion loop and the refusal check, written as
    loops over mutable locals, and its batch, whose games run as tasks that
    `asyncio.gather` collects in creation order. Awaiting is a plain call;
    the tasks run one after the other. The awaited
    `generate_response_async` is the same `respond` oracle as the
    synchronous `generate_response`, so each method computes exactly what
    the synchronous definition as written does for a model whose two
    methods give the same reply. */
module AsyncGames {
  import opened Wrappers
  import opened Text
  import opened Json
  import opened Oracle
  import opened Scan
  import opened Games

  /** The candidate loop: `find('{')` from the current position, then
      `find('}')` from that `{`, keep the slice, continue past the `}`; stop
      when either search fails. */
  method CollectCandidates(text: string) returns (candidates: seq<string>)
    ensures candidates == Candidates(text)
  {
    candidates := [];
    ghost var spans: seq<Span> := [];
    var pos := 0;
    while true
      invariant 0 <= pos <= |text|
      invariant Collected(text, pos, spans, candidates)
      decreases |text| - pos
    {
      var start := FindFrom(text, '{', pos);
      if start == -1 {
        break;
      }
      var end := FindFrom(text, '}', start);
      if end == -1 {
        break;
      }
      CollectStep(text, pos, spans, candidates, Span(start, end));
      candidates := candidates + [text[start..end + 1]];
      spans := spans + [Span(start, end)];
      start := end + 1;
      pos := start;
    }
    assert spans == Spans(text) by {
      assert ScanFrom(text, pos) == [];
    }
    CandidatesOfSpans(text, candidates);
  }

  /** The loop's invariant: the spans found so far, followed by those the
      scan finds from `pos`, are all the spans, and the candidates collected
      are the texts of the spans found so far. */
  ghost predicate Collected(text: string, pos: nat, spans: seq<Span>, candidates: seq<string>)
    requires pos <= |text|
  {
    && spans + ScanFrom(text, pos) == Spans(text)
    && |candidates| == |spans|
    && forall i :: 0 <= i < |spans| ==>
         spans[i].open <= spans[i].close < |text| && candidates[i] == CandidateText(text, spans[i])
  }

  /** One round of the loop keeps the invariant. */
  lemma CollectStep(text: string, pos: nat, spans: seq<Span>, candidates: seq<string>, sp: Span)
    requires pos <= |text| && Collected(text, pos, spans, candidates)
    requires NextSpan(text, pos) == Some(sp)
    ensures sp.close + 1 <= |text|
    ensures Collected(text, sp.close + 1, spans + [sp], candidates + [text[sp.open..sp.close + 1]])
  {
    ScanCons(text, pos, sp);
    assert (spans + [sp]) + ScanFrom(text, sp.close + 1) == spans + ScanFrom(text, pos);
  }

  /** The texts of the spans of `text`, in order, are its candidates. */
  lemma CandidatesOfSpans(text: string, candidates: seq<string>)
    requires |candidates| == |Spans(text)|
    requires forall i :: 0 <= i < |candidates| ==>
               Spans(text)[i].open <= Spans(text)[i].close < |text| && candidates[i] == CandidateText(text, Spans(text)[i])
    ensures candidates == Candidates(text)
  {
  }

  /** `_check_if_refusal_async`: the same request, slice and verdict as the
      synchronous check, with every failure turned into `False`. The awaited
      `generate_response_async` is the checker's `respond`. */
  method CheckRefusalAsync(checker: Option<Model>, text: string, loads: string -> Option<Obj>) returns (c: Check)
    ensures c == CheckRefusal(checker, text, loads)
  {
    if checker.None? {
      return Check(Bool(false), []);
    }
    var request := RefusalRequest(text);
    var reply := checker.value.respond(request);
    var verdict := Bool(false);
    if reply.Generated? {
      var start := RFind(reply.text, '{');
      var end := RFind(reply.text, '}');
      if start != -1 && end != -1 {
        verdict := FieldOrFalse(loads(Slice(reply.text, start, end + 1)));
      }
    }
    c := Check(verdict, [request]);
  }

  /** `parse_allocation_async`: the same outcome and the same refusal-check
      requests as `parse_allocation` as written, for the same text, total,
      checker and runtime, including the two exceptions that escape it;
      whenever it returns, its result is the corrected parser's. */
  method ParseAllocationAsync(text: string, total: int, checker: Option<Model>, rt: Runtime) returns (r: ParseOutcome)
    ensures r == ParseAsWritten(text, total, checker, rt)
    ensures r.Returns? ==> r.parsed == Parse(text, total, checker, rt)
  {
    AsWrittenDiffersOnlyWhenRaising(text, total, checker, rt);
    var candidates := CollectCandidates(text);
    if |candidates| == 0 {
      var check := CheckRefusalAsync(checker, text, rt.loads);
      if Truthy(check.verdict) {
        return Returns(Parsed(map[], Refusal, check.requests));
      }
      return Returns(Parsed(map[], NoJson, check.requests));
    }
    var last := candidates[|candidates| - 1];
    var decoded := rt.loads(last);
    if decoded.None? {
      if rt.escapes(last) {
        return Raises(DecoderLimit);
      }
      return Returns(Parsed(map[], InvalidJson, []));
    }
    var allocation, status := CoerceAsync(decoded.value, rt.intOfStr);
    if status.OverflowRaised? {
      return Raises(IntOverflow);
    }
    if status.ConversionFailed? {
      return Returns(Parsed(allocation, InvalidValues, []));
    }
    var p := SettleAsync(allocation, total);
    r := Returns(p);
  }

  /** The coercion loop over `['alloc0', 'alloc1']`, stopping at the first
      value `int()` does not convert, and telling a caught `ValueError` or
      `TypeError` from an `OverflowError`, which is not caught. */
  method CoerceAsync(o: Obj, intOfStr: string -> Option<int>) returns (allocation: Obj, status: Status)
    ensures allocation == Coerce(o, intOfStr).obj
    ensures status == Coerce(o, intOfStr).status
    ensures status.AllConverted? ==> (Alloc0 in allocation ==> allocation[Alloc0].Int?) && (Alloc1 in allocation ==> allocation[Alloc1].Int?)
  {
    CoerceSpec(o, intOfStr);
    allocation := o;
    var keys := [Alloc0, Alloc1];
    var i := 0;
    while i < |keys|
      invariant 0 <= i <= |keys|
      invariant CoerceKeys(allocation, keys[i..], intOfStr) == Coerce(o, intOfStr)
    {
      var key := keys[i];
      assert keys[i..][0] == key && keys[i..][1..] == keys[i + 1..];
      if key in allocation {
        var n := PyInt(allocation[key], intOfStr);
        if n.Overflow? {
          return allocation, OverflowRaised;
        }
        if n.Rejected? {
          return allocation, ConversionFailed;
        }
        allocation := allocation[key := Int(n.n)];
      }
      i := i + 1;
    }
    assert keys[i..] == [];
    status := AllConverted;
  }

  /** The inference and the two checks, as statements. */
  method SettleAsync(allocation: Obj, total: int) returns (p: Parsed)
    requires Alloc0 in allocation ==> allocation[Alloc0].Int?
    requires Alloc1 in allocation ==> allocation[Alloc1].Int?
    ensures p == Settle(allocation, total)
  {
    AllocKeysDiffer();
    var a := allocation;
    if Alloc0 in a && Alloc1 !in a {
      a := a[Alloc1 := Int(total - a[Alloc0].n)];
    } else if Alloc1 in a && Alloc0 !in a {
      a := a[Alloc0 := Int(total - a[Alloc1].n)];
    } else if Alloc0 !in a && Alloc1 !in a {
      return Parsed(map[], MissingAlloc, []);
    }
    if a[Alloc0].n < 0 || a[Alloc1].n < 0 {
      return Parsed(a, Negative, []);
    }
    if a[Alloc0].n + a[Alloc1].n != total {
      return Parsed(a, SumMismatch, []);
    }
    return Parsed(a, Success, []);
  }

  /** The async `run_game`: the same outcome as the synchronous one as
      written, with the player again its own refusal checker; when it
      returns, the corrected game's record. The player's
      `generate_response_async` is its `respond`. */
  method RunGameAsync(s: Settings, prompts: Prompts, player: Model, meta: Meta, rt: Runtime) returns (r: Option<Record>)
    ensures r == RunGameAsWritten(s, prompts, player, meta, rt)
    ensures r.Some? ==> r == RunGame(s, prompts, player, meta, rt)
  {
    var reply := player.respond(GameRequest(s, prompts));
    if reply.Raised? {
      return None;
    }
    var outcome := ParseAllocationAsync(reply.text, s.total, Some(player), rt);
    if outcome.Raises? {
      return None;
    }
    var parsed := outcome.parsed;
    var result := BaseRecord(meta, player.name, reply.text, reply.inputTokens, reply.outputTokens, parsed.error);
    if |parsed.allocation| > 0 {
      result := result + parsed.allocation;
    }
    r := Some(result);
  }

  /** The `i`-th game's task, `self.run_game(...)` for player `i`. */
  method PlayGame(s: Settings, prompts: Prompts, ss: Session, i: nat, rt: Runtime) returns (r: Option<Record>)
    ensures r == GamesAsWrittenOf(s, prompts, ss, rt)(i)
  {
    r := RunGameAsync(s, prompts, Player(ss, i), ss.meta(i), rt);
  }

  /** The first `k` values of `games`, in index order. */
  function Prefix(games: nat -> Option<Record>, k: nat): (t: seq<Option<Record>>)
    ensures |t| == k
  {
    if k == 0 then [] else Prefix(games, k - 1) + [games(k - 1)]
  }

  /** Position `j` of a prefix holds game `j`. */
  lemma {:induction false} PrefixAt(games: nat -> Option<Record>, k: nat)
    ensures forall j :: 0 <= j < k ==> Prefix(games, k)[j] == games(j)
  {
    if k > 0 {
      PrefixAt(games, k - 1);
    }
  }

  /** One task per game, created in order: `asyncio.create_task(self.run_game(...))`. */
  method CreateTasks(s: Settings, prompts: Prompts, ss: Session, count: nat, rt: Runtime) returns (tasks: seq<Option<Record>>)
    ensures |tasks| == count
    ensures forall j :: 0 <= j < count ==> tasks[j] == GamesAsWrittenOf(s, prompts, ss, rt)(j)
  {
    ghost var games := GamesAsWrittenOf(s, prompts, ss, rt);
    tasks := [];
    var i := 0;
    while i < count
      invariant 0 <= i <= count && tasks == Prefix(games, i)
    {
      var task := PlayGame(s, prompts, ss, i, rt);
      tasks := tasks + [task];
      i := i + 1;
    }
    PrefixAt(games, count);
  }

  /** `asyncio.gather`: every result in creation order, or the exception of
      a failed task. */
  method Gather(tasks: seq<Option<Record>>) returns (results: Option<seq<Record>>)
    ensures results.None? <==> exists j :: 0 <= j < |tasks| && tasks[j].None?
    ensures results.Some? ==> |results.value| == |tasks|
    ensures results.Some? ==> forall j :: 0 <= j < |tasks| ==> tasks[j] == Some(results.value[j])
  {
    var collected: seq<Record> := [];
    var i := 0;
    while i < |tasks|
      invariant 0 <= i <= |tasks| && |collected| == i
      invariant forall j :: 0 <= j < i ==> tasks[j] == Some(collected[j])
    {
      if tasks[i].None? {
        return None;
      }
      collected := collected + [tasks[i].value];
      i := i + 1;
    }
    results := Some(collected);
  }

  /** The loop that adds the batch id, and the experiment id when given, to
      every gathered result. */
  method TagAll(results: seq<Record>, batchId: string, experimentId: Option<string>) returns (tagged: seq<Record>)
    ensures |tagged| == |results|
    ensures forall j :: 0 <= j < |results| ==> tagged[j] == Tag(results[j], batchId, experimentId)
  {
    tagged := results;
    var i := 0;
    while i < |results|
      invariant 0 <= i <= |results| && |tagged| == |results|
      invariant forall j :: 0 <= j < i ==> tagged[j] == Tag(results[j], batchId, experimentId)
      invariant forall j :: i <= j < |results| ==> tagged[j] == results[j]
    {
      tagged := tagged[i := Tag(tagged[i], batchId, experimentId)];
      i := i + 1;
    }
  }

  /** Gathering the games' outcomes, then tagging them, is the batch. */
  lemma {:induction false} GatheredIsBatch(games: nat -> Option<Record>, tasks: seq<Option<Record>>, batchId: string, experimentId: Option<string>)
    requires forall j :: 0 <= j < |tasks| ==> tasks[j] == games(j)
    ensures Batch(games, |tasks|, batchId, experimentId).None? <==> exists j :: 0 <= j < |tasks| && tasks[j].None?
  {
    BatchFailsIffSomeGameFails(games, |tasks|, batchId, experimentId);
    if exists j :: 0 <= j < |tasks| && games(j).None? {
      var j :| 0 <= j < |tasks| && games(j).None?;
      assert tasks[j].None?;
    }
  }

  /** The async `run_batch`: create one task per game, gather them in
      creation order (the first exception propagates), then tag every
      result. The outcome is the synchronous batch's as written, and, when
      it returns, the corrected batch. */
  method RunBatchAsync(s: Settings, prompts: Prompts, ss: Session, n: int, stamp: string, experimentId: Option<string>, rt: Runtime)
    returns (rs: Option<seq<Record>>)
    ensures rs == RunBatchAsWritten(s, prompts, ss, n, stamp, experimentId, rt)
    ensures rs.Some? ==> rs == RunBatch(s, prompts, ss, n, stamp, experimentId, rt)
  {
    AsWrittenBatchIsBatch(s, prompts, ss, n, stamp, experimentId, rt);
    var batchId := BatchId(stamp);
    var count := if n < 0 then 0 else n;
    ghost var games := GamesAsWrittenOf(s, prompts, ss, rt);
    var tasks := CreateTasks(s, prompts, ss, count, rt);
    GatheredIsBatch(games, tasks, batchId, experimentId);
    var gathered := Gather(tasks);
    if gathered.None? {
      return None;
    }
    var tagged := TagAll(gathered.value, batchId, experimentId);
    rs := Some(tagged);
    assert tagged == Batch(games, count, batchId, experimentId).value;
  }
}
