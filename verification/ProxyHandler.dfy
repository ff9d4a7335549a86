/** One confidential exchange of the local proxy: from the envelope to the request record. */
module ProxyHandler {
  import opened Prelude
  import opened ByteSource
  import opened TrustPolicy
  import opened Attestation
  import opened LedgerModel
  import Ledger
  import opened PolicyRefresh
  import opened ConfidentialClient
  import opened DoneTracker
  import opened Relay
  import opened TextTrim

  /** The answer of the Gateway: an event stream or a body that is read whole. Such a body is relayed
      without the white space around it, if what is left is one JSON object. */
  datatype Body =
    | Stream(source: Source)
    | Unreadable
    | Normal(text: Bytes, isObject: Bytes -> bool)

  datatype Answer = Answer(status: int, body: Body)

  predicate ForbidsBody(status: int) {
    status < 200 || status > 599 || 300 <= status <= 399 || status == 204 || status == 205
  }

  /** The statuses of complete answers: success with a body, and the two kinds of errors. */
  lemma BodyStatuses(status: int)
    ensures !ForbidsBody(status) <==>
              200 <= status < 204 || 206 <= status < 300 || 400 <= status < 500 || 500 <= status < 600
  {
  }

  /** What the handler knows before it sends anything; the outcome starts as failed. */
  function Started(id: string, startedAt: int, requestBytes: nat): LedgerModel.Request {
    LedgerModel.Request(id, startedAt, 0, NoId, Failed, NoFailure, 0, requestBytes, 0, false)
  }

  /** A span in nanoseconds as whole milliseconds, cut towards zero. */
  function Milliseconds(d: int): int {
    if d >= 0 then d / MILLISECOND else -(-d / MILLISECOND)
  }

  /** The whole milliseconds of a span, and what is left of it. */
  lemma MillisecondsMeaning(d: int) returns (rest: int)
    ensures d == Milliseconds(d) * 1_000_000 + rest && -1_000_000 < rest < 1_000_000
    ensures (d >= 0 ==> rest >= 0) && (d <= 0 ==> rest <= 0)
  {
    rest := if d >= 0 then d % 1_000_000 else -(-d % 1_000_000);
  }

  function SourcesOf(answer: Answer): set<object> {
    if answer.body.Stream? then {answer.body.source} else {}
  }

  /** Whether the answer reached the local client whole and authenticated: a stream with its
      terminator and no failed write, or a body that is one JSON object. */
  ghost predicate Complete(answer: Answer, broken: bool, wire: Bytes) {
    && !ForbidsBody(answer.status)
    && match answer.body
       case Stream(_) => !broken && HasDoneLine(wire)
       case Unreadable => false
       case Normal(text, isObject) => isObject(TrimSpace(text))
  }

  function WireOf(answer: Answer): Bytes
    reads SourcesOf(answer)
  {
    if answer.body.Stream? then answer.body.source.wire else []
  }

  /** What the local client is to get of an answer. */
  ghost function Relayed(answer: Answer, wire: Bytes): Bytes {
    match answer.body
    case Stream(_) => wire
    case Unreadable => []
    case Normal(text, _) => TrimSpace(text)
  }

  /** The record counts these bytes, and they were written, whole unless the local client's side broke. */
  ghost predicate Delivered(data: Bytes, record: LedgerModel.Request, before: Bytes, after: Bytes, broken: bool) {
    && record.responseBytes == |data|
    && before <= after <= before + data
    && (!broken ==> after == before + data)
  }

  method ForwardNormal(answer: Answer, w: LocalWriter, record: LedgerModel.Request)
    returns (result: LedgerModel.Request)
    requires !answer.body.Stream? && record.outcome == Failed && !w.broken
    modifies w
    ensures result.outcome == Encrypted <==> answer.body.Normal? && answer.body.isObject(TrimSpace(answer.body.text))
    ensures result.outcome == Encrypted ==>
              Delivered(TrimSpace(answer.body.text), result, old(w.written), w.written, w.broken)
    ensures result.outcome == Failed ==> w.written == old(w.written) && result.responseBytes == record.responseBytes
    ensures result.failure == if answer.body.Unreadable? then UnreadableBody
                              else if result.outcome == Encrypted then record.failure else NotOneObject
    ensures result == record.(outcome := result.outcome, failure := result.failure,
                              responseBytes := result.responseBytes)
  {
    result := record;
    match answer.body
    case Unreadable =>
      result := result.(failure := UnreadableBody);
    case Normal(body, isObject) =>
      var text := TrimSpace(body);
      if !isObject(text) {
        result := result.(failure := NotOneObject);
        return;
      }
      result := result.(outcome := Encrypted, responseBytes := |text|);
      var _ := w.Write(text);
  }

  /** Relays an answer of the Gateway. */
  method Forward(answer: Answer, w: LocalWriter, contextDone: bool, record: LedgerModel.Request)
    returns (result: LedgerModel.Request, ending: Ending)
    requires record.outcome == Failed && !w.broken
    modifies w, SourcesOf(answer)
    ensures result.outcome == Encrypted <==> Complete(answer, w.broken, old(WireOf(answer)))
    ensures ending == Aborted <==>
              !ForbidsBody(answer.status) && answer.body.Stream? && !w.broken && !HasDoneLine(old(WireOf(answer)))
    ensures result.attestationID == record.attestationID && result.id == record.id
    ensures result.requestBytes == record.requestBytes
    ensures result.statusCode == answer.status
    ensures ForbidsBody(answer.status) ==> result.failure == ForbiddenStatus && w.written == old(w.written)
    ensures result.outcome == Encrypted ==> result.failure == record.failure
    ensures result.outcome == Encrypted && record.responseBytes == 0 ==>
              Delivered(Relayed(answer, old(WireOf(answer))), result, old(w.written), w.written, w.broken)
    ensures result.startedAt == record.startedAt
    ensures result.streaming <==> record.streaming || (!ForbidsBody(answer.status) && answer.body.Stream?)
  {
    result := record.(statusCode := answer.status);
    if ForbidsBody(answer.status) {
      return result.(failure := ForbiddenStatus), Returned;
    }
    if answer.body.Stream? {
      result := result.(streaming := true);
      ghost var turns, end;
      result, ending, turns, end := ForwardEventStream(answer.body.source, w, contextDone, result);
      return;
    }
    result := ForwardNormal(answer, w, result);
    return result, Returned;
  }

  /** One exchange. However it ends, abort included, it leaves exactly one request record, the last
      thing written to the ledger; the record counts as encrypted if and only if the exchange went
      through and its answer was complete, and it then names the attested key that the client used. */
  method ServeExchange(client: Client, f: Foreign, a: Attempt, envelope: Bytes, exchange: Exchange, answer: Answer,
                       w: LocalWriter, contextDone: bool, id: string, startedAt: int, requestBytes: nat, endedAt: int)
    returns (record: LedgerModel.Request, ending: Ending)
    requires client.ledger.Valid() && client.verifier.inner.Settled() && OfItsOwn(client.verifier.inner, a.derived)
    requires envelope != [] && !w.broken
    modifies client, client.verifier`lastRefresh, client.verifier.inner, CellsOf(a.derived)`pcrs
    modifies client.ledger, client.ledger.Repr, client.ledger.store, w, SourcesOf(answer)
    ensures client.ledger.Valid() && client.verifier.inner.Settled()
    ensures var (after, key) := AfterDo(f, old(client.View()), old(client.verifier.lastRefresh), a,
                                        old(ValueOfAny(a.derived)), exchange);
            && client.View() == after.(ledger := Apply(after.ledger, Event.RecordRequest(record)))
            && (record.outcome == Encrypted <==>
                  key.Some? && exchange == Responded && Complete(answer, w.broken, old(WireOf(answer))))
            && record.attestationID == (if key.Some? then key.value else NoId)
            && record.id == id && record.requestBytes == requestBytes && record.startedAt == startedAt
            && record.statusCode == (if key.Some? && exchange == Responded then answer.status else 0)
            && record.durationMs == Milliseconds(endedAt - startedAt)
    ensures record.outcome == Encrypted ==>
              Delivered(Relayed(answer, old(WireOf(answer))), record, old(w.written), w.written, w.broken)
    ensures ending == Aborted ==> record.outcome == Failed && record.streaming
  {
    ghost var wire := WireOf(answer);
    ghost var (after, used) := AfterDo(f, client.View(), client.verifier.lastRefresh, a, ValueOfAny(a.derived),
                                       exchange);
    var ok, key := client.Do(f, a, envelope, exchange);
    assert client.View() == after && WireOf(answer) == wire;
    record, ending := Conclude(client, ok, answer, w, contextDone,
                               Started(id, startedAt, requestBytes).(attestationID := key), startedAt, endedAt);
  }

  /** The rest of an exchange once it was sent, up to the record that is written however it ends. */
  method Conclude(client: Client, ok: bool, answer: Answer, w: LocalWriter, contextDone: bool,
                  started: LedgerModel.Request, startedAt: int, endedAt: int)
    returns (record: LedgerModel.Request, ending: Ending)
    requires client.ledger.Valid() && client.verifier.inner.Settled()
    requires started.outcome == Failed && !started.streaming && started.responseBytes == 0 && !w.broken
    modifies client.ledger, client.ledger.Repr, client.ledger.store, w, SourcesOf(answer)
    ensures client.ledger.Valid() && client.verifier.inner.Settled()
    ensures client.View()
         == old(client.View()).(ledger := Apply(old(client.ledger.State()), Event.RecordRequest(record)))
    ensures record.outcome == Encrypted <==> ok && Complete(answer, w.broken, old(WireOf(answer)))
    ensures record.outcome == Encrypted ==>
              Delivered(Relayed(answer, old(WireOf(answer))), record, old(w.written), w.written, w.broken)
    ensures ending == Aborted ==> record.outcome == Failed && record.streaming
    ensures record.attestationID == started.attestationID && record.id == started.id
    ensures record.requestBytes == started.requestBytes && record.startedAt == started.startedAt
    ensures record.statusCode == if ok then answer.status else started.statusCode
    ensures record.durationMs == Milliseconds(endedAt - startedAt)
  {
    ghost var held, view := client.verifier.inner.policy.cells, client.View();
    ghost var releases := ReleasesOf(held);
    record, ending := Answered(ok, answer, w, contextDone, started);
    record := record.(durationMs := Milliseconds(endedAt - startedAt));
    assert ReleasesOf(held) == releases && client.ledger.State() == view.ledger;
    WriteRecord(client, record);
  }

  /** The ledger takes one more request record, and that is all that changes for the client. */
  method WriteRecord(client: Client, record: LedgerModel.Request)
    requires client.ledger.Valid() && client.verifier.inner.Settled()
    modifies client.ledger, client.ledger.Repr, client.ledger.store
    ensures client.ledger.Valid() && client.verifier.inner.Settled()
    ensures client.View()
         == old(client.View()).(ledger := Apply(old(client.ledger.State()), Event.RecordRequest(record)))
  {
    ghost var held := client.verifier.inner.policy.cells;
    ghost var releases := ReleasesOf(held);
    WriteBeside(client.ledger, record, held);
    assert ReleasesOf(held) == releases;
  }

  method WriteBeside(ledger: Ledger.Ledger, record: LedgerModel.Request, ghost held: seq<ReleaseCell>)
    requires ledger.Valid()
    modifies ledger, ledger.Repr, ledger.store
    ensures ledger.Valid() && ledger.State() == Apply(old(ledger.State()), Event.RecordRequest(record))
    ensures forall c :: c in held ==> c.pcrs == old(c.pcrs) && c.release == old(c.release)
  {
    ledger.RecordRequest(record);
  }

  /** The part of an exchange between its sending and its record. */
  method Answered(ok: bool, answer: Answer, w: LocalWriter, contextDone: bool, record: LedgerModel.Request)
    returns (result: LedgerModel.Request, ending: Ending)
    requires record.outcome == Failed && !record.streaming && record.responseBytes == 0 && !w.broken
    modifies w, SourcesOf(answer)
    ensures result.outcome == Encrypted <==> ok && Complete(answer, w.broken, old(WireOf(answer)))
    ensures result.outcome == Encrypted ==>
              Delivered(Relayed(answer, old(WireOf(answer))), result, old(w.written), w.written, w.broken)
    ensures ending == Aborted ==> result.outcome == Failed && result.streaming
    ensures result.attestationID == record.attestationID && result.id == record.id
    ensures result.requestBytes == record.requestBytes && result.startedAt == record.startedAt
    ensures ok ==> result.statusCode == answer.status
    ensures !ok ==> result == record.(failure := ExchangeFailed) && w.written == old(w.written)
    ensures result.outcome == Encrypted ==> result.failure == record.failure
  {
    if !ok {
      return record.(failure := ExchangeFailed), Returned;
    }
    result, ending := Forward(answer, w, contextDone, record);
  }
}
