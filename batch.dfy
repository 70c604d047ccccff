/**
  The assembly step of `TranslatorApp.run_translation` (code.py): empty
  records are kept as they are, every other record is sent to the translator,
  and the results are written, in whatever order the futures complete, into a
  list pre-allocated with one slot per record, while two counters keep track
  of how many records were processed and how many failed.
*/
module BatchTranslation {
  import opened Wrappers
  import opened SrtCodec
  import opened DeepseekClient

  /** The prefix an untranslated record's body gets. */
  const ErrorMarker: string := "[TRANSLATION_ERROR] "

  /** A record with a non-empty body is sent to the translator. */
  predicate Submitted(sub: Subtitle) {
    sub.content != []
  }

  /** The record a position ends with, given what its future returned or raised. */
  function Settled(sub: Subtitle, result: Result<string, TranslateError>): (r: Subtitle)
    ensures r.index == sub.index && r.startTime == sub.startTime && r.endTime == sub.endTime
    ensures !Submitted(sub) ==> r == sub
    ensures Submitted(sub) && result.Ok? ==> r.content == result.value
    ensures Submitted(sub) && result.Err? ==> r.content == ErrorMarker + sub.content
  {
    if !Submitted(sub) then Subtitle(sub.index, sub.startTime, sub.endTime, "")
    else
      match result
      case Ok(translated) => Subtitle(sub.index, sub.startTime, sub.endTime, translated)
      case Err(_) => Subtitle(sub.index, sub.startTime, sub.endTime, ErrorMarker + sub.content)
  }

  /** The positions whose future raised. */
  function FailedPositions(subs: seq<Subtitle>, results: seq<Result<string, TranslateError>>): set<nat>
    requires |results| == |subs|
  {
    set i: nat | i < |subs| && Submitted(subs[i]) && results[i].Err?
  }

  /** The positions counted as successes: the skipped ones and the translated ones. */
  function SucceededPositions(subs: seq<Subtitle>, results: seq<Result<string, TranslateError>>): set<nat>
    requires |results| == |subs|
  {
    set i: nat | i < |subs| && (!Submitted(subs[i]) || results[i].Ok?)
  }

  /** The failed positions among those written so far. */
  ghost function FailedAmong(written: seq<nat>, subs: seq<Subtitle>, results: seq<Result<string, TranslateError>>): set<nat>
    requires |results| == |subs|
  {
    if written == [] then {}
    else
      var last := written[|written| - 1];
      FailedAmong(written[..|written| - 1], subs, results)
      + (if last < |subs| && Submitted(subs[last]) && results[last].Err? then {last} else {})
  }

  lemma {:induction false} FailedAmongMembers(written: seq<nat>, subs: seq<Subtitle>, results: seq<Result<string, TranslateError>>)
    requires |results| == |subs|
    ensures forall j: nat :: j in FailedAmong(written, subs, results) <==>
      j in written && j < |subs| && Submitted(subs[j]) && results[j].Err?
  {
    if written != [] {
      var init := written[..|written| - 1];
      FailedAmongMembers(init, subs, results);
      assert written == init + [written[|written| - 1]];
    }
  }

  /** Writing one more, fresh, position adds it to the failed ones exactly when its future raised. */
  lemma FailedAmongNext(written: seq<nat>, index: nat, subs: seq<Subtitle>, results: seq<Result<string, TranslateError>>)
    requires |results| == |subs| && index < |subs| && index !in written
    ensures FailedAmong(written + [index], subs, results)
         == FailedAmong(written, subs, results) + (if Submitted(subs[index]) && results[index].Err? then {index} else {})
    ensures index !in FailedAmong(written, subs, results)
  {
    assert (written + [index])[..|written|] == written;
    FailedAmongMembers(written, subs, results);
  }

  /** The list comprehension that drops the slots left empty. */
  function Filled(slots: seq<Option<Subtitle>>): (r: seq<Subtitle>)
    ensures |r| <= |slots|
    ensures (forall i :: 0 <= i < |slots| ==> slots[i].Some?) ==>
              |r| == |slots| && forall i :: 0 <= i < |slots| ==> r[i] == slots[i].value
  {
    if slots == [] then []
    else (if slots[0].Some? then [slots[0].value] else []) + Filled(slots[1..])
  }

  /** `order` lists the submitted positions, each once, in completion order. */
  predicate CompletionOrder(subs: seq<Subtitle>, order: seq<nat>) {
    && (forall k :: 0 <= k < |order| ==> order[k] < |subs| && Submitted(subs[order[k]]))
    && (forall i :: 0 <= i < |subs| && Submitted(subs[i]) ==> i in order)
    && (forall k, l :: 0 <= k < l < |order| ==> order[k] != order[l])
  }

  predicate Distinct(s: seq<nat>) {
    forall k, l :: 0 <= k < l < |s| ==> s[k] != s[l]
  }

  /** The submission loop and the completion loop. `results[i]` is what the
      future of position `i` returns or raises; `order` is the order in which
      the futures complete. The result does not depend on `order`: each slot is
      written exactly once (`writes` lists the slots in the order written), and
      the output and the counters are functions of the records and results. */
  method AssembleBatch(subs: seq<Subtitle>, results: seq<Result<string, TranslateError>>, order: seq<nat>)
    returns (output: seq<Subtitle>, processed: nat, errors: nat, ghost writes: seq<nat>)
    requires |results| == |subs|
    requires CompletionOrder(subs, order)
    ensures |output| == |subs|
    ensures forall i :: 0 <= i < |subs| ==> output[i] == Settled(subs[i], results[i])
    ensures processed == |subs|
    ensures errors == |FailedPositions(subs, results)|
    ensures Distinct(writes) && |writes| == |subs| && forall i :: 0 <= i < |subs| ==> i in writes
  {
    var slots := new Option<Subtitle>[|subs|](_ => None);
    processed, writes := KeepEmptyRecords(subs, results, slots);
    processed, errors, writes := CollectResults(subs, results, order, slots, processed, writes);
    assert forall j: nat :: j in writes <==> j < |subs| by {
      assert order[..|order|] == order;
    }
    FailedAmongMembers(writes, subs, results);
    assert FailedAmong(writes, subs, results) == FailedPositions(subs, results);
    CoveringCount(writes, |subs|);
    output := Filled(slots[..]);
  }

  /** The submission loop: an empty record is written back at once, with an
      empty body, and counted as processed; the others are left to their futures. */
  method KeepEmptyRecords(subs: seq<Subtitle>, results: seq<Result<string, TranslateError>>, slots: array<Option<Subtitle>>)
    returns (processed: nat, ghost writes: seq<nat>)
    requires |results| == |subs| == slots.Length
    requires forall j :: 0 <= j < slots.Length ==> slots[j] == None
    modifies slots
    ensures forall j :: 0 <= j < slots.Length ==> (slots[j].Some? <==> j in writes)
    ensures forall j: nat :: j in writes <==> j < |subs| && !Submitted(subs[j])
    ensures forall j :: 0 <= j < slots.Length && j in writes ==> slots[j] == Some(Settled(subs[j], results[j]))
    ensures Distinct(writes) && processed == |writes|
    ensures FailedAmong(writes, subs, results) == {}
  {
    processed, writes := 0, [];
    for i := 0 to slots.Length
      invariant forall j :: 0 <= j < slots.Length ==> (slots[j].Some? <==> j in writes)
      invariant forall j: nat :: j in writes <==> j < i && !Submitted(subs[j])
      invariant forall j :: 0 <= j < slots.Length && j in writes ==> slots[j] == Some(Settled(subs[j], results[j]))
      invariant Distinct(writes) && processed == |writes|
      invariant FailedAmong(writes, subs, results) == {}
    {
      if !Submitted(subs[i]) {
        var sub := subs[i];
        slots[i] := Some(Subtitle(sub.index, sub.startTime, sub.endTime, ""));
        FailedAmongNext(writes, i, subs, results);
        processed := processed + 1;
        writes := writes + [i];
      }
    }
  }

  /** The completion loop: each future's position gets the translated record, or
      the marked original when the future raised, which is also counted as an error. */
  method CollectResults(subs: seq<Subtitle>, results: seq<Result<string, TranslateError>>, order: seq<nat>,
                        slots: array<Option<Subtitle>>, processed0: nat, ghost writes0: seq<nat>)
    returns (processed: nat, errors: nat, ghost writes: seq<nat>)
    requires |results| == |subs| == slots.Length
    requires CompletionOrder(subs, order)
    requires forall j :: 0 <= j < slots.Length ==> (slots[j].Some? <==> j in writes0)
    requires forall j: nat :: j in writes0 <==> j < |subs| && !Submitted(subs[j])
    requires forall j :: 0 <= j < slots.Length && j in writes0 ==> slots[j] == Some(Settled(subs[j], results[j]))
    requires Distinct(writes0) && processed0 == |writes0|
    requires FailedAmong(writes0, subs, results) == {}
    modifies slots
    ensures forall j: nat :: j in writes <==> (j < |subs| && !Submitted(subs[j])) || j in order
    ensures forall j :: 0 <= j < slots.Length ==> slots[j] == Some(Settled(subs[j], results[j]))
    ensures Distinct(writes) && processed == |writes|
    ensures errors == |FailedAmong(writes, subs, results)|
  {
    processed, errors, writes := processed0, 0, writes0;
    for k := 0 to |order|
      invariant forall j :: 0 <= j < slots.Length ==> (slots[j].Some? <==> j in writes)
      invariant forall j: nat :: j in writes <==> (j < |subs| && !Submitted(subs[j])) || j in order[..k]
      invariant forall j :: 0 <= j < slots.Length && j in writes ==> slots[j] == Some(Settled(subs[j], results[j]))
      invariant Distinct(writes) && processed == |writes|
      invariant errors == |FailedAmong(writes, subs, results)|
    {
      var index := order[k];
      var original := subs[index];
      assert index !in writes by {
        assert forall l :: 0 <= l < k ==> order[l] != order[k];
      }
      FailedAmongNext(writes, index, subs, results);
      match results[index] {
        case Ok(translated) =>
          slots[index] := Some(Subtitle(original.index, original.startTime, original.endTime, translated));
        case Err(_) =>
          errors := errors + 1;
          slots[index] := Some(Subtitle(original.index, original.startTime, original.endTime, ErrorMarker + original.content));
      }
      assert slots[index] == Some(Settled(subs[index], results[index]));
      processed := processed + 1;
      DistinctSnoc(writes, index);
      PrefixStep(order, k);
      writes := writes + [index];
    }
    assert order[..|order|] == order;
  }

  lemma DistinctSnoc(s: seq<nat>, x: nat)
    requires Distinct(s) && x !in s
    ensures Distinct(s + [x])
    ensures forall j :: j in s + [x] <==> j in s || j == x
  {
  }

  lemma PrefixStep(order: seq<nat>, k: nat)
    requires k < |order|
    ensures forall j :: j in order[..k + 1] <==> j in order[..k] || j == order[k]
  {
    assert order[..k + 1] == order[..k] + [order[k]];
  }

  // ---------------------------------------------------------------------
  // Counting
  // ---------------------------------------------------------------------

  /** A list of distinct positions that are exactly `0 .. n-1` has `n` entries. */
  lemma CoveringCount(s: seq<nat>, n: nat)
    requires Distinct(s)
    requires forall j: nat :: j in s <==> j < n
    ensures |s| == n
  {
    DistinctCard(s);
    assert Elements(s) == RangeSet(n);
    RangeCard(n);
  }

  /** The positions `0 .. n-1`. */
  function RangeSet(n: nat): (r: set<nat>)
    ensures forall j: nat :: j in r <==> j < n
  {
    if n == 0 then {} else RangeSet(n - 1) + {n - 1}
  }

  lemma {:induction false} RangeCard(n: nat)
    ensures |RangeSet(n)| == n
  {
    if n > 0 {
      RangeCard(n - 1);
    }
  }

  function Elements(s: seq<nat>): set<nat> {
    set x | x in s
  }

  lemma {:induction false} DistinctCard(s: seq<nat>)
    requires Distinct(s)
    ensures |Elements(s)| == |s|
  {
    if s != [] {
      var rest := s[1..];
      assert Distinct(rest) by {
        forall k, l | 0 <= k < l < |rest| ensures rest[k] != rest[l] {
          assert rest[k] == s[k + 1] && rest[l] == s[l + 1];
        }
      }
      DistinctCard(rest);
      assert s[0] !in rest by {
        forall l | 0 <= l < |rest| ensures rest[l] != s[0] {
          assert rest[l] == s[l + 1];
        }
      }
      assert Elements(s) == Elements(rest) + {s[0]} by {
        assert s == [s[0]] + rest;
      }
    } else {
      assert Elements(s) == {};
    }
  }

  /** `finish_translation` reports `total - errors` successes: every record
      that was not marked as failed, the skipped empty ones included. */
  lemma SuccessCount(subs: seq<Subtitle>, results: seq<Result<string, TranslateError>>)
    requires |results| == |subs|
    ensures |subs| - |FailedPositions(subs, results)| == |SucceededPositions(subs, results)|
  {
    var failed := FailedPositions(subs, results);
    var succeeded := SucceededPositions(subs, results);
    assert failed + succeeded == RangeSet(|subs|);
    assert failed * succeeded == {};
    RangeCard(|subs|);
  }

  /** Records read by the parser all have a body, so none of them is skipped:
      every position goes to the translator and ends translated or marked. */
  lemma ParsedRecordsAreAllSubmitted(blocks: seq<string>, results: seq<Result<string, TranslateError>>)
    requires |results| == |SubtitlesOf(blocks)|
    ensures forall i :: 0 <= i < |results| ==> Submitted(SubtitlesOf(blocks)[i])
    ensures SucceededPositions(SubtitlesOf(blocks), results)
         == set i: nat | i < |results| && results[i].Ok?
  {
    RecordsHaveContent(blocks);
  }
}
