/** The relay service (server/src/main.rs): the published-address cell and
    the status page that reads it, request handling, and the receive loop
    that publishes the address and then handles inbound messages one at a
    time until the stream ends.

    The mixnet client is a stand-in that holds its own address and the
    messages its stream will still yield. The broadcast endpoint is a
    stand-in too: each inbound message carries the answer the endpoint gives
    if the relay posts that message on. */
module Relay {
  import opened Wrappers
  import opened Wire
  import Utf8
  import Bincode

  type byte = Utf8.byte

  /** The POST that handle_request sends to the broadcast endpoint. */
  datatype BroadcastCall = BroadcastCall(url: string, contentType: string, body: string)

  /** How the POST went, as the relay sees it. */
  datatype HttpOutcome =
    | SendFailed(reason: string)               // the request got no response
    | BodyFailed(status: int, reason: string)  // a response whose body could not be read
    | Responded(status: int, body: string)

  /** `StatusCode::is_success`: a 2xx status. */
  predicate IsSuccess(status: int) {
    200 <= status < 300
  }

  /** Why handling one message failed. */
  datatype HandleError =
    | Malformed(cause: Bincode.DecodeError)
    | Unreachable(reason: string)
    | SubmissionFailed(status: int, body: string)

  /** What handling one message did: the POST it made, if any, and the value
      handle_request returned. */
  datatype Handling = Handling(call: Option<BroadcastCall>, result: Result<seq<byte>, HandleError>)

  const TxPath: string := "/tx"
  const PlainText: string := "text/plain"
  const SuccessPrefix: string := "Success: "

  /** The POST for a decoded request: to the network's API base followed by
      /tx, as plain text, with the transaction hex as the whole body. */
  function BroadcastRequest(req: TransactionRequest): (call: BroadcastCall)
    ensures call.contentType == "text/plain" && call.body == req.txHex
    ensures MempoolApiUrl(req.network) <= call.url
    ensures call.url[|MempoolApiUrl(req.network)|..] == "/tx"
  {
    BroadcastCall(MempoolApiUrl(req.network) + TxPath, PlainText, req.txHex)
  }

  /** The POST goes to the endpoint of the request's own network (and to no
      other network's), and carries the transaction hex unchanged. */
  lemma BroadcastTarget(a: TransactionRequest, b: TransactionRequest)
    ensures BroadcastRequest(a).url == BroadcastRequest(b).url <==> a.network == b.network
    ensures BroadcastRequest(a).body == a.txHex
    ensures BroadcastRequest(a).contentType == "text/plain"
  {
  }

  /** handle_request: decode the message, and only if that succeeds post it
      on; a 2xx answer gives the bytes of "Success: " and the body, anything
      else an error. */
  function HandleRequest(message: seq<byte>, answer: HttpOutcome): (h: Handling)
    ensures h.call.None? <==> Bincode.Decode(message).Err?
    ensures Bincode.Decode(message).Err? ==> h.result == Err(Malformed(Bincode.Decode(message).error))
    ensures h.call.Some? ==> h.call.value == BroadcastRequest(Bincode.Decode(message).value)
    ensures h.result.Ok? <==> h.call.Some? && answer.Responded? && IsSuccess(answer.status)
    ensures h.result.Ok? ==> Utf8.Decode(h.result.value) == Some(SuccessPrefix + answer.body)
    ensures h.call.Some? && answer.Responded? && !IsSuccess(answer.status) ==>
              h.result == Err(SubmissionFailed(answer.status, answer.body))
  {
    match Bincode.Decode(message)
    case Err(e) => Handling(None, Err(Malformed(e)))
    case Ok(req) =>
      var result :=
        match answer
        case SendFailed(reason) => Err(Unreachable(reason))
        case BodyFailed(_, reason) => Err(Unreachable(reason))
        case Responded(status, body) =>
          if IsSuccess(status) then
            Utf8.DecodeEncode(SuccessPrefix + body);
            Ok(Utf8.Encode(SuccessPrefix + body))
          else Err(SubmissionFailed(status, body));
      Handling(Some(BroadcastRequest(req)), result)
  }

  /** A message that is the encoding of a request, followed by anything, is
      posted to that request's network with its hex as the body, and succeeds
      exactly when the endpoint answers 2xx. */
  lemma HandleEncodedRequest(req: TransactionRequest, trailing: seq<byte>, answer: HttpOutcome)
    requires Bincode.Encodable(req)
    ensures HandleRequest(Bincode.Encode(req) + trailing, answer).call ==
              Some(BroadcastCall(MempoolApiUrl(req.network) + "/tx", "text/plain", req.txHex))
    ensures HandleRequest(Bincode.Encode(req) + trailing, answer).result.Ok? <==>
              answer.Responded? && IsSuccess(answer.status)
  {
    Bincode.DecodeEncode(req, trailing);
  }

  /** The shared state of the server: the relay's own mixnet address, None
      until the service has connected. */
  class AppState {
    var nymAddress: Option<string>
    ghost var writes: nat  // how many times the cell has been written

    constructor ()
      ensures nymAddress == None && writes == 0
    {
      nymAddress := None;
      writes := 0;
    }

    /** The one write of the cell, under the write lock. */
    method Publish(address: string)
      modifies this
      ensures nymAddress == Some(address)
      ensures writes == old(writes) + 1
    {
      nymAddress := Some(address);
      writes := writes + 1;
    }
  }

  /** The page variant the status surface serves, with the address it embeds. */
  datatype StatusPage = AddressPage(address: string) | StartingUpPage

  /** index_handler: the address page showing the published address verbatim,
      or the starting-up page while nothing is published. */
  function IndexHandler(state: AppState): (page: StatusPage)
    reads state
    ensures page.AddressPage? <==> state.nymAddress.Some?
    ensures page.AddressPage? ==> Some(page.address) == state.nymAddress
  {
    match state.nymAddress
    case Some(address) => AddressPage(address)
    case None => StartingUpPage
  }

  /** One message from the mixnet, with the broadcast endpoint's answer to it. */
  datatype InboundMessage = InboundMessage(message: seq<byte>, answer: HttpOutcome)

  /** The connected mixnet client: its address and the rest of its stream. */
  class MixnetClient {
    const nymAddress: string
    var pending: seq<InboundMessage>

    constructor (address: string, inbound: seq<InboundMessage>)
      ensures nymAddress == address && pending == inbound
    {
      nymAddress := address;
      pending := inbound;
    }

    /** The next message of the stream, or None once the connection is closed. */
    method Next() returns (m: Option<InboundMessage>)
      modifies this
      ensures old(pending) == [] ==> m == None && pending == []
      ensures old(pending) != [] ==> m == Some(old(pending)[0]) && pending == old(pending)[1..]
    {
      if pending == [] {
        m := None;
      } else {
        m := Some(pending[0]);
        pending := pending[1..];
      }
    }
  }

  /** What the service does that can be observed: the write of the address
      cell, the handling of each message (the POST made, and the error it
      logged, if any), and the end of the stream. Nothing is ever sent back
      through the mixnet. */
  datatype Event =
    | AddressPublished(address: string)
    | MessageHandled(call: Option<BroadcastCall>, error: Option<HandleError>)
    | ConnectionClosed

  /** The event of handling one message; the success reply is dropped. */
  function HandledEvent(m: InboundMessage): (e: Event) {
    var h := HandleRequest(m.message, m.answer);
    MessageHandled(h.call, if h.result.Ok? then None else Some(h.result.error))
  }

  function HandledEvents(inbound: seq<InboundMessage>): (events: seq<Event>) {
    seq(|inbound|, i requires 0 <= i < |inbound| => HandledEvent(inbound[i]))
  }

  lemma HandledEventsSnoc(inbound: seq<InboundMessage>, k: nat)
    requires k < |inbound|
    ensures HandledEvents(inbound[..k + 1]) == HandledEvents(inbound[..k]) + [HandledEvent(inbound[k])]
  {
  }

  /** Everything a connected service does, in order: publish the address,
      handle every message, stop at the end of the stream. */
  function ServiceTrace(address: string, inbound: seq<InboundMessage>): (trace: seq<Event>) {
    [AddressPublished(address)] + HandledEvents(inbound) + [ConnectionClosed]
  }

  /** The address is published once, first, before any message is handled;
      every message is handled in arrival order, one event each, whatever
      happened to the ones before it; the trace ends with the connection
      closing and only there. */
  lemma ServiceTraceShape(address: string, inbound: seq<InboundMessage>)
    ensures |ServiceTrace(address, inbound)| == |inbound| + 2
    ensures ServiceTrace(address, inbound)[0] == AddressPublished(address)
    ensures forall i :: 0 <= i < |inbound| + 2 ==>
              (ServiceTrace(address, inbound)[i].AddressPublished? <==> i == 0)
    ensures forall i :: 0 <= i < |inbound| + 2 ==>
              (ServiceTrace(address, inbound)[i].ConnectionClosed? <==> i == |inbound| + 1)
    ensures forall i :: 0 <= i < |inbound| ==>
              ServiceTrace(address, inbound)[i + 1] == HandledEvent(inbound[i])
  {
  }

  /** A message that fails, for whatever reason, does not stop the relay:
      a well-formed request right after it is still posted on. */
  lemma FailureDoesNotStopRelay(address: string, inbound: seq<InboundMessage>, i: nat, req: TransactionRequest)
    requires i + 1 < |inbound|
    requires HandleRequest(inbound[i].message, inbound[i].answer).result.Err?
    requires Bincode.Encodable(req) && inbound[i + 1].message == Bincode.Encode(req)
    ensures ServiceTrace(address, inbound)[i + 2].call == Some(BroadcastRequest(req))
  {
    var next := inbound[i + 1];
    assert next.message == Bincode.Encode(req) + [];
    HandleEncodedRequest(req, [], next.answer);
    ServiceTraceShape(address, inbound);
    assert ServiceTrace(address, inbound)[i + 2] == HandledEvent(next);
  }

  /** The loop's handling of one packet: handle the request, then log the
      outcome, success or error, and carry on either way. */
  method ProcessPacket(packet: InboundMessage) returns (event: Event)
    ensures event.MessageHandled? && event == HandledEvent(packet)
  {
    var handling := HandleRequest(packet.message, packet.answer);
    match handling.result {
      case Ok(_) =>
        event := MessageHandled(handling.call, None);
      case Err(e) =>
        event := MessageHandled(handling.call, Some(e));
    }
  }

  /** run_nym_service. A setup failure (storage directory, client builder,
      connecting) ends it with that error before anything is published.
      Otherwise it writes the client's address into the cell, then handles
      each inbound message, logging and going on past any failure, and
      returns Ok once the stream has ended. */
  method RunNymService(state: AppState, setupError: Option<string>, client: MixnetClient)
    returns (events: seq<Event>, r: Result<(), string>)
    modifies state, client
    ensures setupError.Some? ==>
              r == Err(setupError.value) && events == [] && unchanged(state) && unchanged(client)
    ensures setupError.None? ==>
              r == Ok(()) && client.pending == [] &&
              state.nymAddress == Some(client.nymAddress) && state.writes == old(state.writes) + 1 &&
              events == ServiceTrace(client.nymAddress, old(client.pending))
  {
    if setupError.Some? {
      return [], Err(setupError.value);
    }
    var address := client.nymAddress;
    state.Publish(address);
    events := [AddressPublished(address)];
    ghost var inbound := client.pending;
    ghost var k := 0;
    while true
      invariant 0 <= k <= |inbound| && client.pending == inbound[k..]
      invariant state.nymAddress == Some(address) && state.writes == old(state.writes) + 1
      invariant events == [AddressPublished(address)] + HandledEvents(inbound[..k])
      decreases |client.pending|
    {
      var next := client.Next();
      match next
      case None =>
        assert inbound[..k] == inbound;
        events := events + [ConnectionClosed];
        break;
      case Some(packet) =>
        var event := ProcessPacket(packet);
        events := events + [event];
        assert inbound[k + 1..] == inbound[k..][1..];
        HandledEventsSnoc(inbound, k);
        k := k + 1;
    }
    r := Ok(());
  }

  /** The server as a whole, seen from the status page: a fresh state serves
      the starting-up page; once the service task has run, the page shows
      the client's address, or stays on starting-up for good if setup failed. */
  method ServeStatus(setupError: Option<string>, client: MixnetClient) returns (before: StatusPage, after: StatusPage)
    modifies client
    ensures before == StartingUpPage
    ensures after == if setupError.None? then AddressPage(client.nymAddress) else StartingUpPage
  {
    var state := new AppState();
    before := IndexHandler(state);
    var _, _ := RunNymService(state, setupError, client);
    after := IndexHandler(state);
  }
}
