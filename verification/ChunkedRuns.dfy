/** Where a run of the chunked writer ends, and what it reports. */
module ChunkedRuns {
  import opened ChunkedIO

  /** The provider has not finished: it did nothing, or its last act was to write something. */
  predicate WantsMore(ops: seq<SinkOp>) {
    ops != [] ==> ops[|ops| - 1].Write? && ops[|ops| - 1].data != ""
  }

  /** After this call there is another one. */
  predicate Continues(call: ProviderCall) { !call.shuttingDown && call.result && WantsMore(call.ops) }

  predicate AllContinue(calls: seq<ProviderCall>) { forall call :: call in calls ==> Continues(call) }

  /** What the operations of all calls emit. */
  function CallsText(calls: seq<ProviderCall>): string {
    if calls == [] then "" else OpsText(calls[0].ops) + CallsText(calls[1..])
  }

  lemma {:induction false} FirstCalls(calls: seq<ProviderCall>, rest: seq<ProviderCall>)
    requires AllContinue(calls)
    ensures RunText(calls + rest, true) == CallsText(calls) + RunText(rest, true)
    ensures RunSucceeds(calls + rest, true) <==> RunSucceeds(rest, true)
    decreases |calls|
  {
    if calls == [] {
      assert calls + rest == rest;
    } else {
      var others := calls[1..];
      assert (calls + rest)[1..] == others + rest;
      assert Continues(calls[0]) && Available(calls[0].ops, true);
      FirstCalls(others, rest);
      assert OpsText(calls[0].ops) + (CallsText(others) + RunText(rest, true))
          == CallsText(calls) + RunText(rest, true);
    }
  }

  /** A shutdown ends the run with success before the call; so does a script that is at its end. */
  lemma ShutdownEndsRun(calls: seq<ProviderCall>, rest: seq<ProviderCall>)
    requires AllContinue(calls) && (rest != [] ==> rest[0].shuttingDown)
    ensures RunText(calls + rest, true) == CallsText(calls) && RunSucceeds(calls + rest, true)
  {
    FirstCalls(calls, rest);
    assert CallsText(calls) + "" == CallsText(calls);
  }

  /** A call that returns false, or leaves no data available, is the last one: what it wrote is still
      sent, and the run succeeds if and only if the call did. */
  lemma LastCallDecides(calls: seq<ProviderCall>, call: ProviderCall, rest: seq<ProviderCall>)
    requires AllContinue(calls) && !call.shuttingDown && !Continues(call)
    ensures RunText(calls + [call] + rest, true) == CallsText(calls) + OpsText(call.ops)
    ensures RunSucceeds(calls + [call] + rest, true) <==> call.result
  {
    var last := [call] + rest;
    assert calls + [call] + rest == calls + last;
    FirstCalls(calls, last);
    assert last[1..] == rest;
    assert call.result ==> !Available(call.ops, true);
    assert OpsText(call.ops) + "" == OpsText(call.ops);
  }

  /** Every script is one of the two. */
  lemma {:induction false} EveryRunEnds(script: seq<ProviderCall>) returns (k: nat)
    ensures k <= |script| && AllContinue(script[..k])
    ensures k < |script| ==> !Continues(script[k])
    decreases |script|
  {
    if script == [] || !Continues(script[0]) {
      k := 0;
    } else {
      k := EveryRunEnds(script[1..]);
      assert script[..k + 1] == [script[0]] + script[1..][..k];
      k := k + 1;
    }
  }
}
