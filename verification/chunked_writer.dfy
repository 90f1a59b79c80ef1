// `write_content_chunked` of `comm/httplib.h`, with the pass-through compressor.
module ChunkedWriter {
  import opened Text
  import opened Streams
  import opened Chunked

  /** `from_i_to_hex`. */
  method FromIToHex(n: nat) returns (ret: string)
    ensures ret == Hex(n)
  {
    var m := n;
    ret := "";
    while true
      invariant Hex(n) == Hex(m) + ret
      decreases m
    {
      ret := [CHARSET[m % 16]] + ret;
      m := m / 16;
      if m == 0 { break; }
    }
  }

  /** One call of the content provider: what it does with the sink, and its answer. */
  datatype Call = Call(events: seq<Event>, answer: bool)

  /** A portion of no bytes ends the body just as `done` does, but leaves out the last chunk. */
  predicate Ends(events: seq<Event>) {
    events != [] && events[|events| - 1] in {Done, Portion("")}
  }

  /** Everything done with the sink from call `i` on, when the server shuts down before call `last`. */
  function Script(provider: nat -> Call, i: nat, last: nat): seq<Event>
    decreases last - i
  {
    if i >= last then []
    else
      var events := provider(i).events;
      events + if Ends(events) then [] else Script(provider, i + 1, last)
  }

  predicate Refuses(provider: nat -> Call, i: nat, last: nat)
    decreases last - i
  {
    i < last && (!provider(i).answer || (!Ends(provider(i).events) && Refuses(provider, i + 1, last)))
  }

  /** The events of the calls from `i` to before `j`. */
  function Together(provider: nat -> Call, i: nat, j: nat): seq<Event>
    decreases j - i
  {
    if i >= j then [] else provider(i).events + Together(provider, i + 1, j)
  }

  predicate EndsAt(provider: nat -> Call, k: nat) {
    var events := provider(k).events;
    events != [] && (events[|events| - 1] == Done || events[|events| - 1] == Portion(""))
  }

  /** The calls go on up to the first one that ends with `done` or with a portion of no bytes, or else up to the
      shutdown. */
  lemma {:induction false} ScriptSpelled(provider: nat -> Call, i: nat, j: nat, last: nat)
    requires i <= j <= last && forall k | i <= k < j :: !EndsAt(provider, k)
    ensures j == last ==> Script(provider, i, last) == Together(provider, i, last)
    ensures j < last && EndsAt(provider, j) ==> Script(provider, i, last) == Together(provider, i, j + 1)
    decreases j - i
  {
    if i < j {
      assert Ends(provider(i).events) <==> EndsAt(provider, i);
      ScriptSpelled(provider, i + 1, j, last);
    } else if j < last && EndsAt(provider, j) {
      assert Together(provider, j + 1, j + 1) == [];
    }
  }

  /** The provider refuses where one of these calls does. */
  lemma {:induction false} RefusesSpelled(provider: nat -> Call, i: nat, last: nat)
    ensures Refuses(provider, i, last) <==>
      exists k: nat :: i <= k < last && !provider(k).answer && forall m: nat | i <= m < k :: !EndsAt(provider, m)
    decreases last - i
  {
    if i < last {
      assert Ends(provider(i).events) <==> EndsAt(provider, i);
      RefusesSpelled(provider, i + 1, last);
      if k: nat :| i <= k < last && !provider(k).answer && forall m: nat | i <= m < k :: !EndsAt(provider, m) {
        if k > i {
          assert !EndsAt(provider, i);
          assert i + 1 <= k < last && forall m: nat | i + 1 <= m < k :: !EndsAt(provider, m);
        }
      }
      if Refuses(provider, i, last) && provider(i).answer {
        var k: nat :|
          i + 1 <= k < last && !provider(k).answer && forall m: nat | i + 1 <= m < k :: !EndsAt(provider, m);
        assert i <= k < last && forall m: nat | i <= m < k :: !EndsAt(provider, m);
      }
    }
  }

  lemma {:induction false} EmittedConcat(a: seq<Event>, b: seq<Event>)
    ensures Emitted(a + b) == Emitted(a) + Emitted(b)
  {
    if a == [] {
      assert a + b == b;
    } else {
      assert (a + b)[1..] == a[1..] + b;
      EmittedConcat(a[1..], b);
      Assoc(Emission(a[0]), Emitted(a[1..]), Emitted(b));
    }
  }

  lemma EmittedOne(a: seq<Event>, e: Event)
    ensures Emitted(a + [e]) == Emitted(a) + Emission(e)
  {
    EmittedConcat(a, [e]);
    assert Emission(e) + Emitted([]) == Emission(e);
  }

  /** While all went well, exactly `due` is sent and counted; afterwards only a part of it. */
  predicate OnWire(sent: string, start: string, due: string, ok: bool, total: nat, broken: bool) {
    && (ok ==> sent == start + due && total == |due| && !broken)
    && (!ok ==> broken && start <= sent <= start + due)
  }

  lemma MoreDue(sent: string, start: string, due: string, text: string)
    requires start <= sent <= start + due
    ensures start <= sent <= start + (due + text)
  {
    assert start + (due + text) == (start + due) + text;
  }

  /** The sink with the variables that its functions share with the writing loop. */
  class DataSink {
    const strm: OutStream
    var dataAvailable: bool
    var total: nat
    var ok: bool
    ghost var start: string
    ghost var events: seq<Event>

    ghost predicate Valid()
      reads this, strm
    {
      && OnWire(strm.sent, start, Emitted(events), ok, total, strm.broken)
      && (ok ==> dataAvailable == !Ends(events))
    }

    constructor (strm: OutStream)
      requires !strm.broken
      ensures Valid() && this.strm == strm && ok && dataAvailable && events == [] && start == strm.sent
    {
      this.strm := strm;
      dataAvailable, total, ok := true, 0, true;
      start, events := strm.sent, [];
    }

    /** Sends the next chunk or marker. */
    method Emit(text: string, ghost due: string)
      requires ok && OnWire(strm.sent, start, due, ok, total, strm.broken)
      modifies this`total, this`ok, strm
      ensures OnWire(strm.sent, start, due + text, ok, total, strm.broken)
    {
      ghost var was := strm.sent;
      assert start + due + text == start + (due + text);
      var sent := strm.WriteData(text);
      if sent {
        total := total + |text|;
      } else {
        ok := false;
        assert was <= strm.sent <= was + text;
      }
    }

    method Write(d: string)
      requires Valid()
      modifies this, strm
      ensures Valid() && events == old(events) + [Portion(d)] && start == old(start)
    {
      ghost var due := Emitted(events);
      EmittedOne(events, Portion(d));
      events := events + [Portion(d)];
      if !ok {
        MoreDue(strm.sent, start, due, Chunk(d));
        return;
      }
      dataAvailable := |d| > 0;
      var payload := d;
      if payload != "" {
        var size := FromIToHex(|payload|);
        Emit(size + CRLF + payload + CRLF, due);
      } else {
        assert due + "" == due;
      }
    }

    method End()
      requires Valid()
      modifies this, strm
      ensures Valid() && events == old(events) + [Done] && start == old(start)
    {
      ghost var due := Emitted(events);
      EmittedOne(events, Done);
      events := events + [Done];
      if !ok {
        MoreDue(strm.sent, start, due, DONE_MARKER);
        return;
      }
      dataAvailable := false;
      Emit(DONE_MARKER, due);
    }
  }

  lemma OneMore(before: seq<Event>, events: seq<Event>, i: nat)
    requires i < |events|
    ensures (before + events[..i]) + [events[i]] == before + events[..i + 1]
  {
  }

  /** A call of the provider. */
  method Provide(call: Call, sink: DataSink) returns (answer: bool)
    requires sink.Valid()
    modifies sink, sink.strm
    ensures sink.Valid() && sink.events == old(sink.events) + call.events && sink.start == old(sink.start)
    ensures answer == call.answer
  {
    ghost var before := sink.events;
    for i := 0 to |call.events|
      invariant sink.Valid() && sink.start == old(sink.start)
      invariant sink.events == before + call.events[..i]
    {
      OneMore(before, call.events, i);
      if call.events[i] == Done {
        sink.End();
      } else {
        sink.Write(call.events[i].data);
      }
    }
    assert call.events[..|call.events|] == call.events;
    return call.answer;
  }

  /** What is still to come after `events`, the next call being `i`. */
  function Remaining(provider: nat -> Call, events: seq<Event>, i: nat, last: nat): seq<Event> {
    if Ends(events) then [] else Script(provider, i, last)
  }

  lemma NextCall(provider: nat -> Call, before: seq<Event>, i: nat, last: nat, after: seq<Event>)
    requires i < last && !Ends(before) && after == before + provider(i).events
    ensures before + Remaining(provider, before, i, last) == after + Remaining(provider, after, i + 1, last)
    ensures Ends(after) == Ends(provider(i).events)
  {
    var events := provider(i).events;
    assert Ends(after) == Ends(events) by {
      if events == [] {
        assert after == before;
      } else {
        assert after[|after| - 1] == events[|events| - 1];
      }
    }
    Assoc(before, events, Remaining(provider, after, i + 1, last));
  }

  lemma SentSoFar(sent: string, start: string, done: seq<Event>, todo: seq<Event>, ok: bool, total: nat, broken: bool)
    requires OnWire(sent, start, Emitted(done), ok, total, broken)
    ensures start <= sent <= start + Emitted(done + todo)
  {
    EmittedConcat(done, todo);
    MoreDue(sent, start, Emitted(done), Emitted(todo));
  }

  /** Writes the whole script, or answers -1 after a part of it, exactly when the provider refuses or the
      connection fails. */
  method WriteContentChunked(strm: OutStream, provider: nat -> Call, last: nat) returns (n: int)
    requires !strm.broken
    modifies strm
    ensures n >= 0 ==> OnWire(strm.sent, old(strm.sent), Emitted(Script(provider, 0, last)), true, n, false)
    ensures n < 0 ==> n == -1 && old(strm.sent) <= strm.sent <= old(strm.sent) + Emitted(Script(provider, 0, last))
    ensures n < 0 <==> strm.broken || Refuses(provider, 0, last)
  {
    var sink := new DataSink(strm);
    ghost var script, start := Script(provider, 0, last), strm.sent;
    assert [] + script == script;
    var i := 0;
    while sink.dataAvailable && i < last
      invariant sink.Valid() && sink.ok && sink.strm == strm && sink.start == start && i <= last
      invariant script == sink.events + Remaining(provider, sink.events, i, last)
      invariant Refuses(provider, 0, last) <==> !Ends(sink.events) && Refuses(provider, i, last)
    {
      ghost var before := sink.events;
      var answer := Provide(provider(i), sink);
      NextCall(provider, before, i, last, sink.events);
      i := i + 1;
      ghost var todo := Remaining(provider, sink.events, i, last);
      SentSoFar(strm.sent, start, sink.events, todo, sink.ok, sink.total, strm.broken);
      if !answer { return -1; }
      if !sink.ok { return -1; }
    }
    assert script == sink.events;
    return sink.total;
  }
}
