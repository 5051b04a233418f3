/** How a buffer is filled, event by event (crates/hide-object/src/lib.rs). */
module StreamRules {
  import opened Results
  import opened Streams

  /** How many bytes the first `k` events have given a reader that wants `want` of `available`. */
  function Got(script: seq<Event>, k: nat, available: nat, want: nat): (n: nat)
    requires k <= |script|
    ensures n <= available && n <= want
  {
    if k == 0 then 0
    else
      var before := Got(script, k - 1, available, want);
      match script[k - 1]
      case Deliver(atMost) =>
        var room := if available - before < want - before then available - before else want - before;
        before + if atMost < room then atMost else room
      case _ => before
  }

  /** After each of the first `k` events there is more to read: none of them breaks, ends the input or fills up. */
  predicate Continues(script: seq<Event>, k: nat, available: nat, want: nat)
    requires k <= |script|
  {
    forall i :: 0 <= i < k ==>
      && Got(script, i, available, want) < want && !script[i].Broken?
      && (script[i].Deliver? ==> Got(script, i + 1, available, want) > Got(script, i, available, want))
  }

  lemma {:induction false} FilledAfter(script: seq<Event>, k: nat, available: nat, want: nat)
    requires k <= |script| && Continues(script, k, available, want)
    ensures var got := Got(script, k, available, want);
            Filled(script, available, want) == Onwards(got, Filled(script[k..], available - got, want - got))
    decreases k
  {
    hide Filled;
    if k == 0 {
      assert script[0..] == script;
      FilledUp(script, available, want);
    } else {
      FilledAfter(script, k - 1, available, want);
      var got := Got(script, k - 1, available, want);
      FilledStep(script[k - 1..], available - got, want - got, got);
      assert script[k - 1..][1..] == script[k..] && script[k - 1..][0] == script[k - 1];
      assert Continues(script, k - 1, available, want);
    }
  }

  /**
   A buffer is filled until it is full, the input ends, the reader breaks or its events are used up,
   whichever comes first; interruptions only cost a call.
   */
  lemma FilledExactly(script: seq<Event>, k: nat, available: nat, want: nat)
    requires k <= |script| && Continues(script, k, available, want)
    ensures Got(script, k, available, want) == want ==> Filled(script, available, want) == (Some(want), script[k..])
    ensures Got(script, k, available, want) < want && k == |script| ==>
              Filled(script, available, want) == (Some(if available < want then available else want), [])
    ensures Got(script, k, available, want) < want && k < |script| && script[k].Broken? ==>
              Filled(script, available, want) == (None, script[k + 1..])
    ensures Got(script, k, available, want) < want && k < |script| && script[k].Deliver?
            && Got(script, k + 1, available, want) == Got(script, k, available, want) ==>
              Filled(script, available, want) == (Some(Got(script, k, available, want)), script[k + 1..])
  {
    var got := Got(script, k, available, want);
    FilledAfter(script, k, available, want);
    if got < want {
      FilledStep(script[k..], available - got, want - got, got);
      if k < |script| {
        assert script[k..][1..] == script[k + 1..] && script[k..][0] == script[k];
      }
    } else {
      FilledUp(script[k..], available - got, got);
    }
    hide Filled;
  }
}
