/** The event loop of the model thread (src/main.rs): after an event
    arrives, the events `try_iter` yields after it are drained one by one; a
    Resize that is immediately followed by another Resize is dropped
    unhandled, every other event is handled in order, and the last event of
    the batch is always handled. The handled events are recorded as a
    trace; what handling does to the model is not part of this module. */
module Events {

  datatype Event = OpenFile(path: string) | Resize(width: int, height: int) | Decode

  /** Event i of a batch is dropped: it and its successor are resizes. */
  predicate Dropped(e: seq<Event>, i: nat)
  {
    i + 1 < |e| && e[i].Resize? && e[i + 1].Resize?
  }

  /** The events handled, in order, for the batch e. */
  function Coalesced(e: seq<Event>): (r: seq<Event>)
    ensures |r| <= |e|
    ensures |e| > 0 ==> |r| > 0 && r[|r| - 1] == e[|e| - 1]
  {
    if |e| == 0 then []
    else (if Dropped(e, 0) then [] else [e[0]]) + Coalesced(e[1..])
  }

  /** The events of e that are not resizes. */
  function NonResizes(e: seq<Event>): (r: seq<Event>)
    ensures forall i :: 0 <= i < |r| ==> !r[i].Resize?
    ensures |r| <= |e|
  {
    if |e| == 0 then []
    else (if e[0].Resize? then [] else [e[0]]) + NonResizes(e[1..])
  }

  /** No two resizes next to each other. */
  predicate Settled(e: seq<Event>)
  {
    forall i :: 0 <= i < |e| ==> !Dropped(e, i)
  }

  lemma {:induction false} NonResizesAppend(a: seq<Event>, b: seq<Event>)
    ensures NonResizes(a + b) == NonResizes(a) + NonResizes(b)
  {
    if |a| == 0 {
      assert a + b == b;
    } else {
      assert (a + b)[0] == a[0];
      assert (a + b)[1..] == a[1..] + b;
      NonResizesAppend(a[1..], b);
    }
  }

  /** One step of coalescing: the first event is dropped exactly when it
      and the next one are resizes. */
  lemma CoalescedCons(current: Event, next: Event, rest: seq<Event>)
    ensures Coalesced([current] + ([next] + rest))
         == (if current.Resize? && next.Resize? then [] else [current]) + Coalesced([next] + rest)
  {
    var e := [current] + ([next] + rest);
    assert e[0] == current && e[1] == next;
    assert e[1..] == [next] + rest;
  }

  /** Every event that is not a resize is handled exactly once and in
      order. */
  lemma {:induction false} CoalescedKeepsOthers(e: seq<Event>)
    ensures NonResizes(Coalesced(e)) == NonResizes(e)
  {
    if |e| > 0 {
      var head := if Dropped(e, 0) then [] else [e[0]];
      CoalescedKeepsOthers(e[1..]);
      NonResizesAppend(head, Coalesced(e[1..]));
    }
  }

  /** Every event that is not dropped is handled. */
  lemma {:induction false} CoalescedKeeps(e: seq<Event>, i: nat)
    requires i < |e| && !Dropped(e, i)
    ensures e[i] in Coalesced(e)
  {
    var head := if Dropped(e, 0) then [] else [e[0]];
    assert Coalesced(e) == head + Coalesced(e[1..]);
    if i > 0 {
      assert !Dropped(e[1..], i - 1);
      CoalescedKeeps(e[1..], i - 1);
    }
  }

  /** Only events of the batch are handled. */
  lemma {:induction false} CoalescedFrom(e: seq<Event>, x: Event)
    requires x in Coalesced(e)
    ensures x in e
  {
    var head := if Dropped(e, 0) then [] else [e[0]];
    assert Coalesced(e) == head + Coalesced(e[1..]);
    if x !in head {
      CoalescedFrom(e[1..], x);
    }
  }

  /** The handled events never hold two resizes in a row. */
  lemma {:induction false} CoalescedSettled(e: seq<Event>)
    ensures Settled(Coalesced(e))
  {
    if |e| > 1 {
      CoalescedSettled(e[1..]);
      var rest := Coalesced(e[1..]);
      if Dropped(e, 0) {
        assert Coalesced(e) == rest;
      } else {
        assert Coalesced(e) == [e[0]] + rest;
        if e[0].Resize? {
          assert !Dropped(e[1..], 0);
          assert rest == [e[1]] + Coalesced(e[2..]);
        }
        SettledCons(e[0], rest);
      }
    } else if |e| == 1 {
      assert Coalesced(e) == [e[0]];
    }
  }

  lemma SettledCons(x: Event, s: seq<Event>)
    requires Settled(s) && (x.Resize? && |s| > 0 ==> !s[0].Resize?)
    ensures Settled([x] + s)
  {
    forall i | 0 <= i < |s| + 1
      ensures !Dropped([x] + s, i)
    {
      if i > 0 {
        assert !Dropped(s, i - 1);
      }
    }
  }

  /** A batch that starts with a resize is handled starting with a
      resize: the last of its leading run of resizes. */
  lemma {:induction false} FirstResizeKept(e: seq<Event>)
    requires |e| > 0 && e[0].Resize?
    ensures Coalesced(e)[0].Resize?
  {
    if Dropped(e, 0) {
      FirstResizeKept(e[1..]);
    }
  }

  /** A batch without adjacent resizes is handled in full; so coalescing
      twice is coalescing once. */
  lemma {:induction false} SettledUnchanged(e: seq<Event>)
    requires Settled(e)
    ensures Coalesced(e) == e
  {
    if |e| > 0 {
      assert !Dropped(e, 0);
      assert Settled(e[1..]) by {
        forall i | 0 <= i < |e| - 1
          ensures !Dropped(e[1..], i)
        {
          assert !Dropped(e, i + 1);
        }
      }
      SettledUnchanged(e[1..]);
    }
  }

  lemma CoalescedIdempotent(e: seq<Event>)
    ensures Coalesced(Coalesced(e)) == Coalesced(e)
  {
    CoalescedSettled(e);
    SettledUnchanged(Coalesced(e));
  }

  /** What is left to handle while `current` is held and `rest` is still
      pending. */
  function Draining(current: Event, rest: seq<Event>): seq<Event>
    decreases |rest|
  {
    if |rest| == 0 then [current]
    else (if current.Resize? && rest[0].Resize? then [] else [current]) + Draining(rest[0], rest[1..])
  }

  lemma {:induction false} DrainingCoalesced(current: Event, rest: seq<Event>)
    ensures Draining(current, rest) == Coalesced([current] + rest)
    decreases |rest|
  {
    if |rest| > 0 {
      DrainingCoalesced(rest[0], rest[1..]);
      assert rest == [rest[0]] + rest[1..];
      CoalescedCons(current, rest[0], rest[1..]);
    } else {
      assert [current] + rest == [current];
    }
  }

  /** One pass of the outer loop of run_event_loop: the event that woke the
      loop and the events `try_iter` yields after it, which include any an
      earlier handler of the same pass has posted. */
  method HandleBatch(first: Event, pending: seq<Event>) returns (handled: seq<Event>)
    ensures handled == Coalesced([first] + pending)
  {
    var current := first;
    handled := [];
    assert pending[0..] == pending;
    for i := 0 to |pending|
      invariant handled + Draining(current, pending[i..]) == Draining(first, pending)
    {
      var next := pending[i];
      assert pending[i..][1..] == pending[i + 1..];
      ghost var later := Draining(next, pending[i + 1..]);
      if current.Resize? && next.Resize? {
        assert Draining(current, pending[i..]) == later;
      } else {
        assert Draining(current, pending[i..]) == [current] + later;
        handled := handled + [current];
      }
      current := next;
    }
    handled := handled + [current];
    DrainingCoalesced(first, pending);
  }

  datatype Batch = Batch(first: Event, pending: seq<Event>)

  /** The events handled for a sequence of batches. */
  function HandledAll(batches: seq<Batch>): seq<Event>
  {
    if |batches| == 0 then []
    else
      var last := batches[|batches| - 1];
      HandledAll(batches[..|batches| - 1]) + Coalesced([last.first] + last.pending)
  }

  /** The events of a sequence of batches, in arrival order. */
  function Arrived(batches: seq<Batch>): seq<Event>
  {
    if |batches| == 0 then []
    else
      var last := batches[|batches| - 1];
      Arrived(batches[..|batches| - 1]) + ([last.first] + last.pending)
  }

  /** `run_event_loop` over a finite sequence of batches, each batch being
      what one wake-up of the blocking receive finds. */
  method RunEventLoop(batches: seq<Batch>) returns (handled: seq<Event>)
    ensures handled == HandledAll(batches)
  {
    handled := [];
    for k := 0 to |batches|
      invariant handled == HandledAll(batches[..k])
    {
      var batch := HandleBatch(batches[k].first, batches[k].pending);
      assert batches[..k + 1][..k] == batches[..k];
      handled := handled + batch;
    }
    assert batches[..|batches|] == batches;
  }

  /** Across all batches, every event that is not a resize is handled
      exactly once and in arrival order. */
  lemma {:induction false} LoopKeepsOthers(batches: seq<Batch>)
    ensures NonResizes(HandledAll(batches)) == NonResizes(Arrived(batches))
  {
    if |batches| > 0 {
      var init := batches[..|batches| - 1];
      var last := batches[|batches| - 1];
      LoopKeepsOthers(init);
      CoalescedKeepsOthers([last.first] + last.pending);
      NonResizesAppend(HandledAll(init), Coalesced([last.first] + last.pending));
      NonResizesAppend(Arrived(init), [last.first] + last.pending);
    }
  }
}
