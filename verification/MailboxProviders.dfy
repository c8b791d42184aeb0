/** The two persistence providers as the objects they are, each operation against its function on the store. */
module MailboxProviders {
  import opened Wrappers
  import opened MailboxStore
  import opened MailboxListings
  import opened MailboxAgreement

  /** An entry of a listing of responses; the in-memory provider leaves the request id out. */
  datatype Entry = Entry(requestId: Option<Id>, response: Response)

  function ResponsesOf(entries: seq<Entry>): seq<Response> {
    seq(|entries|, i requires 0 <= i < |entries| => entries[i].response)
  }

  class InMemoryPersistenceProvider {
    var callbackRequests: map<Id, Request>
    var callbackResponse: map<Id, Response>
    var callbackStates: map<Id, State>
    var mailbox: map<string, seq<Id>>

    ghost function Contents(): Store
      reads this
    {
      InMemory(callbackRequests, callbackResponse, callbackStates, mailbox)
    }

    constructor ()
      ensures Contents() == EMPTY_IN_MEMORY
    {
      callbackRequests, callbackResponse, callbackStates, mailbox := map[], map[], map[], map[];
    }

    method SaveRequest(requestId: Id, mailBoxId: Option<string>, request: Request)
      modifies this
      ensures Contents() == MailboxStore.SaveRequest(old(Contents()), requestId, mailBoxId, request)
    {
      callbackRequests := callbackRequests[requestId := request];
      if mailBoxId.Some? && !IsBlank(mailBoxId.value) {
        var box := mailBoxId.value;
        mailbox := mailbox[box := (if box in mailbox then mailbox[box] else []) + [requestId]];
      }
      callbackStates := callbackStates[requestId := RECEIVED];
    }

    method SetRequestState(requestId: Id, state: State)
      modifies this`callbackStates
      ensures MailboxStore.SetRequestState(old(Contents()), requestId, state) == Ok(Contents())
    {
      callbackStates := callbackStates[requestId := state];
    }

    method SaveResponse(requestId: Id, response: Response)
      modifies this
      ensures Contents() == MailboxStore.SaveResponse(old(Contents()), requestId, response)
    {
      callbackResponse := callbackResponse[requestId := response];
      callbackStates := callbackStates[requestId := RESPONDED];
    }

    /** The requests of a mailbox: those of its ids that are stored, in the order of their saves. */
    method Requests(mailboxId: string) returns (requests: seq<Request>)
      ensures requests == Gather(callbackRequests, InMemoryIds(Contents(), mailboxId))
      ensures forall r :: r in requests <==>
                mailboxId in mailbox
                && exists x :: x in mailbox[mailboxId] && x in callbackRequests && callbackRequests[x] == r
    {
      requests := [];
      if mailboxId !in mailbox || mailbox[mailboxId] == [] {
        return;
      }
      var requestIds := mailbox[mailboxId];
      var i := 0;
      while i < |requestIds|
        invariant 0 <= i <= |requestIds|
        invariant requests == Gather(callbackRequests, requestIds[..i])
        invariant forall r :: r in requests <==>
                    exists x :: x in requestIds[..i] && x in callbackRequests && callbackRequests[x] == r
      {
        assert requestIds[..i + 1] == requestIds[..i] + [requestIds[i]];
        GatherAppend(callbackRequests, requestIds[..i], [requestIds[i]]);
        if requestIds[i] in callbackRequests {
          requests := requests + [callbackRequests[requestIds[i]]];
        }
        i := i + 1;
      }
      assert requestIds[..i] == requestIds;
    }

    /** The responses of a mailbox: those of its ids that have one, whatever their state. */
    method Responses(mailboxId: string) returns (responses: seq<Entry>)
      ensures ResponsesOf(responses) == Gather(callbackResponse, InMemoryIds(Contents(), mailboxId))
      ensures forall e :: e in responses <==>
                mailboxId in mailbox
                && exists x :: x in mailbox[mailboxId] && x in callbackResponse && e == Entry(None, callbackResponse[x])
    {
      responses := [];
      if mailboxId !in mailbox || mailbox[mailboxId] == [] {
        return;
      }
      var requestIds := mailbox[mailboxId];
      var i := 0;
      while i < |requestIds|
        invariant 0 <= i <= |requestIds|
        invariant ResponsesOf(responses) == Gather(callbackResponse, requestIds[..i])
        invariant forall e :: e in responses <==>
                    exists x :: x in requestIds[..i] && x in callbackResponse && e == Entry(None, callbackResponse[x])
      {
        assert requestIds[..i + 1] == requestIds[..i] + [requestIds[i]];
        GatherAppend(callbackResponse, requestIds[..i], [requestIds[i]]);
        if requestIds[i] in callbackResponse {
          ResponsesOfMore(responses, Entry(None, callbackResponse[requestIds[i]]));
          responses := responses + [Entry(None, callbackResponse[requestIds[i]])];
        }
        i := i + 1;
      }
      assert requestIds[..i] == requestIds;
    }
  }

  class AeroSpikePersistenceProvider {
    var records: map<Id, Record>

    ghost function Contents(): Store
      reads this
    {
      Aerospike(records)
    }

    /** A record with a mailbox has the bins of its request. */
    ghost predicate Valid()
      reads this
    {
      forall x :: x in records && records[x].mailbox.Some? ==> records[x].request.Some?
    }

    constructor ()
      ensures Valid() && Contents() == EMPTY_AEROSPIKE
    {
      records := map[];
    }

    method SaveRequest(requestId: Id, mailboxId: Option<string>, request: Request)
      requires Valid()
      modifies this
      ensures Valid() && Contents() == MailboxStore.SaveRequest(old(Contents()), requestId, mailboxId, request)
    {
      hide Upper;
      var mode, verb := Upper(request.mode), Upper(request.verb);
      var box := if mailboxId.None? then "NONE" else mailboxId.value;
      var kept := if requestId in records then records[requestId].response else None;
      records := records[requestId := Record(Some(box), Some(request.(mode := mode, verb := verb)), RECEIVED, kept)];
    }

    /** Reads the state first and writes it only when it is not RESPONDED; fails when there is no record. */
    method SetRequestState(requestId: Id, state: State) returns (done: bool)
      requires Valid()
      modifies this
      ensures Valid() && done == MailboxStore.SetRequestState(old(Contents()), requestId, state).Ok?
      ensures done ==> MailboxStore.SetRequestState(old(Contents()), requestId, state) == Ok(Contents())
      ensures !done ==> Contents() == old(Contents())
    {
      if requestId !in records {
        return false;
      }
      var requestState := records[requestId].state;
      if requestState != RESPONDED {
        records := records[requestId := records[requestId].(state := state)];
      }
      done := true;
    }

    method SaveResponse(requestId: Id, response: Response)
      requires Valid()
      modifies this
      ensures Valid() && Contents() == MailboxStore.SaveResponse(old(Contents()), requestId, response)
    {
      var bins := if requestId in records then records[requestId] else Record(None, None, UNKNOWN, None);
      records := records[requestId := bins.(state := RESPONDED, response := Some(response))];
    }

    /** The requests filed under a mailbox, in whatever order the query yields its records. */
    method Requests(mailboxId: string) returns (requests: seq<Request>)
      requires Valid()
      ensures exists order :: Enumerates(order, AerospikeIds(Contents(), mailboxId))
                              && requests == Gather(AerospikeRequests(Contents()), order)
      ensures forall r :: r in requests <==>
                exists x :: x in records && records[x].mailbox == Some(mailboxId) && records[x].request == Some(r)
    {
      var left := set x | x in records && records[x].mailbox == Some(mailboxId);
      ghost var all := left;
      ghost var order: seq<Id> := [];
      requests := [];
      while left != {}
        invariant left <= all && Enumerates(order, all - left)
        invariant requests == Gather(AerospikeRequests(Contents()), order)
        invariant forall r :: r in requests <==> exists x :: x in all - left && records[x].request == Some(r)
      {
        var x :| x in left;
        requests := requests + [records[x].request.value];
        GatherAppend(AerospikeRequests(Contents()), order, [x]);
        order := order + [x];
        left := left - {x};
      }
    }

    /**
     The responses filed under a mailbox whose records are in ERROR or RESPONDED.  The listing fails when one of
     these has no response stored.
     */
    method Responses(mailboxId: string) returns (responses: Result<seq<Entry>>)
      requires Valid()
      ensures responses.Ok? ==>
        exists order :: Enumerates(order, AerospikeIds(Contents(), mailboxId))
                        && ResponsesOf(responses.value) == Gather(AerospikeResponses(Contents()), order)
      ensures responses.Ok? <==>
        forall x :: x in records && records[x].mailbox == Some(mailboxId) && records[x].state in {ERROR, RESPONDED} ==>
          records[x].response.Some?
      ensures responses.Ok? ==>
        forall e :: e in responses.value <==>
          exists x :: x in records && records[x].mailbox == Some(mailboxId) && records[x].state in {ERROR, RESPONDED}
                      && records[x].response.Some? && e == Entry(Some(x), records[x].response.value)
    {
      var left := set x | x in records && records[x].mailbox == Some(mailboxId);
      ghost var all := left;
      var listed: seq<Entry> := [];
      ghost var order: seq<Id> := [];
      while left != {}
        invariant left <= all && Enumerates(order, all - left)
        invariant ResponsesOf(listed) == Gather(AerospikeResponses(Contents()), order)
        invariant forall x :: x in all - left && records[x].state in {ERROR, RESPONDED} ==> records[x].response.Some?
        invariant forall e :: e in listed <==>
                    exists x :: x in all - left && records[x].state in {ERROR, RESPONDED}
                                && records[x].response.Some? && e == Entry(Some(x), records[x].response.value)
      {
        var x :| x in left;
        var record := records[x];
        GatherAppend(AerospikeResponses(Contents()), order, [x]);
        if record.state == ERROR || record.state == RESPONDED {
          if record.response.None? {
            return Failed;
          }
          ResponsesOfMore(listed, Entry(Some(x), record.response.value));
          listed := listed + [Entry(Some(x), record.response.value)];
        }
        order := order + [x];
        left := left - {x};
      }
      responses := Ok(listed);
    }
  }

  lemma ResponsesOfMore(entries: seq<Entry>, e: Entry)
    ensures ResponsesOf(entries + [e]) == ResponsesOf(entries) + [e.response]
  {
  }
}
