/**
 * A connection's sequence of `consume` calls on one parser, and what holds
 * over the whole sequence: the callbacks come once each and in order, the
 * size limit bounds the total, and the terminator stays locked.
 */
module ParserRun {
  import opened Wrappers
  import opened ByteSeq
  import opened Errors
  import opened Headers
  import opened Parser

  /** The state after a run of calls, the callbacks they made and the value each returned. */
  datatype Trace = Trace(state: State, events: seq<Event>, results: seq<Option<Bytes>>)

  /** Feed `chunks` in order; the first fault ends the run. */
  function Run(p: State, chunks: seq<Bytes>): (r: Result<Trace, Fault>)
    decreases |chunks|
    ensures r.Success? ==> |r.value.results| == |chunks|
  {
    if |chunks| == 0 then Success(Trace(p, [], []))
    else
      match Consume(p, chunks[0])
      case Failure(f) => Failure(f)
      case Success(step) =>
        match Run(step.state, chunks[1..])
        case Failure(f) => Failure(f)
        case Success(t) => Success(Trace(t.state, step.events + t.events, [step.ret] + t.results))
  }

  function TotalLength(chunks: seq<Bytes>): nat {
    if |chunks| == 0 then 0 else |chunks[0]| + TotalLength(chunks[1..])
  }

  /** The flags only go from true to false, and what was settled with them stays. */
  predicate Settled(p: State, q: State) {
    && (!p.needsRequestLine ==> !q.needsRequestLine && q.requestLine == p.requestLine)
    && (!p.needsHeaders ==> !q.needsHeaders && q.headers == p.headers && q.body == p.body)
    && (p.eol.Some? ==> q.eol == p.eol)
  }

  /** The callbacks owed over two legs add up to those owed over the whole way. */
  lemma AnnouncedCompose(p: State, s: State, q: State)
    requires Valid(p) && Valid(s) && Valid(q)
    requires Settled(p, s) && Settled(s, q)
    ensures Announced(p, s) + Announced(s, q) == Announced(p, q)
  {
  }

  /**
   * Over any run that does not fail, the state stays valid, every settled
   * part stays settled, and the callbacks made are exactly those owed:
   * `set_request_line` once when the request line is parsed and
   * `set_headers` once when the headers end, never twice and never out of order.
   */
  lemma {:induction false} RunAnnounced(p: State, chunks: seq<Bytes>)
    requires Valid(p)
    requires Run(p, chunks).Success?
    decreases |chunks|
    ensures Valid(Run(p, chunks).value.state)
    ensures Settled(p, Run(p, chunks).value.state)
    ensures Run(p, chunks).value.events == Announced(p, Run(p, chunks).value.state)
  {
    if |chunks| == 0 {
      assert Announced(p, p) == [];
    } else {
      var step := Consume(p, chunks[0]).value;
      ConsumeChecks(p, chunks[0]);
      ConsumeProgress(p, chunks[0]);
      RunAnnounced(step.state, chunks[1..]);
      var q := Run(p, chunks).value.state;
      AnnouncedCompose(p, step.state, q);
    }
  }

  /** From a fresh parser, the whole trace is `set_request_line` then `set_headers`, each only once reached. */
  lemma RunFromInitial(chunks: seq<Bytes>)
    requires Run(Initial, chunks).Success?
    ensures Valid(Run(Initial, chunks).value.state)
    ensures var q := Run(Initial, chunks).value.state;
      Run(Initial, chunks).value.events
        == (if !q.needsRequestLine then [LineEvent(q.requestLine.value)] else [])
         + (if !q.needsHeaders then [SetHeaders(q.headers)] else [])
  {
    assert Valid(Initial);
    RunAnnounced(Initial, chunks);
    var q := Run(Initial, chunks).value.state;
    assert Valid(q);
    assert Run(Initial, chunks).value.events == Announced(Initial, q);
  }

  /** A run that does not fail consumed at most MAX_REQUEST_LENGTH bytes, all counted. */
  lemma {:induction false} RunLength(p: State, chunks: seq<Bytes>)
    requires p.requestLength <= MaxRequestLength
    requires Run(p, chunks).Success?
    decreases |chunks|
    ensures Run(p, chunks).value.state.requestLength == p.requestLength + TotalLength(chunks)
    ensures p.requestLength + TotalLength(chunks) <= MaxRequestLength
  {
    if |chunks| > 0 {
      var step := Consume(p, chunks[0]).value;
      ConsumeChecks(p, chunks[0]);
      RunLength(step.state, chunks[1..]);
    }
  }

  /** Until the headers end every call returns None. */
  lemma {:induction false} RunReturns(p: State, chunks: seq<Bytes>, k: nat)
    requires Valid(p)
    requires Run(p, chunks).Success?
    requires k < |chunks|
    requires Run(p, chunks[..k + 1]).Success? && Run(p, chunks[..k + 1]).value.state.needsHeaders
    decreases |chunks|
    ensures Run(p, chunks).value.results[k] == None
  {
    var step := Consume(p, chunks[0]).value;
    ConsumeProgress(p, chunks[0]);
    assert chunks[..k + 1][0] == chunks[0];
    if k == 0 {
      assert chunks[..1][1..] == [];
    } else {
      assert chunks[..k + 1][1..] == chunks[1..][..k];
      RunAnnounced(step.state, chunks[1..][..k]);
      RunReturns(step.state, chunks[1..], k - 1);
    }
  }
}
