/**
 What a persistence provider stores about mailbox requests, and its operations as functions.
 The Aerospike provider keeps one record of bins per request id; the in-memory one keeps four maps.
 */
module MailboxStore {
  import opened Wrappers

  type Id = string

  datatype State = RECEIVED | REQUESTED | RESPONDED | READ | ERROR | UNKNOWN

  /** A callback URI: none or empty, text that is no URI, a URI without a scheme, or one with a scheme. */
  datatype CallbackUri = NoUri | Malformed | NoScheme | Scheme(name: string)

  /**
   A request; `content` stands for its service, api, path, query, headers and body, an empty verb is no callback
   method.
   */
  datatype Request = Request(mode: string, verb: string, uri: CallbackUri, content: nat)

  datatype Response = Response(status: int, content: nat)

  /** The bins of a record; the request's bins are missing when only a response was ever put. */
  datatype Record = Record(mailbox: Option<string>, request: Option<Request>, state: State, response: Option<Response>)

  datatype Store =
    | Aerospike(records: map<Id, Record>)
    | InMemory(requests: map<Id, Request>, responses: map<Id, Response>, states: map<Id, State>,
               mailbox: map<string, seq<Id>>)

  const EMPTY_AEROSPIKE := Aerospike(map[])
  const EMPTY_IN_MEMORY := InMemory(map[], map[], map[], map[])

  function UpperChar(c: char): char {
    if 'a' <= c <= 'z' then "ABCDEFGHIJKLMNOPQRSTUVWXYZ"[c as int - 'a' as int] else c
  }

  function Upper(s: string): (r: string)
    ensures |r| == |s|
  {
    if s == "" then "" else [UpperChar(s[0])] + Upper(s[1..])
  }

  function Normalized(r: Request): Request {
    r.(mode := Upper(r.mode), verb := Upper(r.verb))
  }

  /** The request as a provider gives it back. */
  function Stored(s: Store, r: Request): Request {
    if s.Aerospike? then Normalized(r) else r
  }

  /** A character that Java counts as white space: blanks and separators other than the three that do not break. */
  predicate IsWhitespace(c: char) {
    || c == ' ' || '\t' <= c <= '\r' || '\U{1C}' <= c <= '\U{1F}'
    || c == '\U{1680}' || '\U{2000}' <= c <= '\U{2006}' || '\U{2008}' <= c <= '\U{200A}'
    || c == '\U{2028}' || c == '\U{2029}' || c == '\U{205F}' || c == '\U{3000}'
  }

  predicate IsBlank(s: string) {
    forall i :: 0 <= i < |s| ==> IsWhitespace(s[i])
  }

  function AerospikeMailbox(mailbox: Option<string>): string {
    if mailbox.None? then "NONE" else mailbox.value
  }

  // Reads

  predicate Exists(s: Store, id: Id) {
    match s
    case Aerospike(records) => id in records
    case InMemory(requests, _, _, _) => id in requests
  }

  function RequestOf(s: Store, id: Id): Option<Request> {
    match s
    case Aerospike(records) => if id in records then records[id].request else None
    case InMemory(requests, _, _, _) => if id in requests then Some(requests[id]) else None
  }

  function StateOf(s: Store, id: Id): Option<State> {
    match s
    case Aerospike(records) => if id in records then Some(records[id].state) else None
    case InMemory(_, _, states, _) => if id in states then Some(states[id]) else None
  }

  function ResponseOf(s: Store, id: Id): Option<Response> {
    match s
    case Aerospike(records) => if id in records then records[id].response else None
    case InMemory(_, responses, _, _) => if id in responses then Some(responses[id]) else None
  }

  // Writes

  /** `put` merges bins: a response already stored under the id stays. */
  function SaveRequest(s: Store, id: Id, mailbox: Option<string>, r: Request): Store {
    match s
    case Aerospike(records) =>
      var response := if id in records then records[id].response else None;
      Aerospike(records[id := Record(Some(AerospikeMailbox(mailbox)), Some(Normalized(r)), RECEIVED, response)])
    case InMemory(requests, responses, states, boxes) =>
      InMemory(requests[id := r], responses, states[id := RECEIVED],
        if mailbox.Some? && !IsBlank(mailbox.value)
        then boxes[mailbox.value := (if mailbox.value in boxes then boxes[mailbox.value] else []) + [id]]
        else boxes)
  }

  /** The write of a state, after Aerospike's read of the record's state `seen`. */
  function WriteState(s: Store, id: Id, state: State, seen: State): Store {
    match s
    case Aerospike(records) =>
      if id in records && seen != RESPONDED then Aerospike(records[id := records[id].(state := state)]) else s
    case InMemory(_, _, states, _) => s.(states := states[id := state])
  }

  /** A whole `setRequestState`; Aerospike fails on an id it has no record of. */
  function SetRequestState(s: Store, id: Id, state: State): Result<Store> {
    if s.Aerospike? && id !in s.records then Failed
    else Ok(WriteState(s, id, state, StateOf(s, id).GetOr(UNKNOWN)))
  }

  function SaveResponse(s: Store, id: Id, r: Response): Store {
    match s
    case Aerospike(records) =>
      var bins := if id in records then records[id] else Record(None, None, UNKNOWN, None);
      Aerospike(records[id := bins.(state := RESPONDED, response := Some(r))])
    case InMemory(_, responses, states, _) =>
      s.(responses := responses[id := r], states := states[id := RESPONDED])
  }

  // What each write does to the reads

  lemma SaveRequestEffect(s: Store, id: Id, mailbox: Option<string>, r: Request, x: Id)
    ensures var s' := SaveRequest(s, id, mailbox, r);
      && s'.Aerospike? == s.Aerospike?
      && Exists(s', x) == (x == id || Exists(s, x))
      && RequestOf(s', x) == (if x == id then Some(Stored(s, r)) else RequestOf(s, x))
      && StateOf(s', x) == (if x == id then Some(RECEIVED) else StateOf(s, x))
      && ResponseOf(s', x) == ResponseOf(s, x)
  {
  }

  lemma WriteStateEffect(s: Store, id: Id, state: State, seen: State, x: Id)
    requires Exists(s, id)
    ensures var s' := WriteState(s, id, state, seen);
      && s'.Aerospike? == s.Aerospike?
      && Exists(s', x) == Exists(s, x) && RequestOf(s', x) == RequestOf(s, x) && ResponseOf(s', x) == ResponseOf(s, x)
      && StateOf(s', x) == (if x == id && (s.InMemory? || seen != RESPONDED) then Some(state) else StateOf(s, x))
  {
  }

  lemma SaveResponseEffect(s: Store, id: Id, r: Response, x: Id)
    requires Exists(s, id)
    ensures var s' := SaveResponse(s, id, r);
      && s'.Aerospike? == s.Aerospike?
      && Exists(s', x) == Exists(s, x) && RequestOf(s', x) == RequestOf(s, x)
      && StateOf(s', x) == (if x == id then Some(RESPONDED) else StateOf(s, x))
      && ResponseOf(s', x) == (if x == id then Some(r) else ResponseOf(s, x))
  {
  }

  // Spellings

  /** Upper-casing moves the letters from a to z, thirty-two places down, and nothing else. */
  lemma {:induction false} UpperByCharacter(s: string, i: nat)
    requires i < |s|
    ensures Upper(s)[i] as int == if 97 <= s[i] as int <= 122 then s[i] as int - 32 else s[i] as int
  {
    if i > 0 {
      UpperByCharacter(s[1..], i - 1);
    } else {
      UpperOfCharacter(s[0]);
    }
  }

  lemma UpperOfCharacter(c: char)
    ensures UpperChar(c) as int == if 97 <= c as int <= 122 then c as int - 32 else c as int
  {
  }

  /** A mailbox is blank when all its characters have one of these code points. */
  lemma BlankByCodePoints(s: string)
    ensures IsBlank(s) <==>
      forall i :: 0 <= i < |s| ==>
        var c := s[i] as int;
        9 <= c <= 13 || 28 <= c <= 32 || c == 0x1680 || (0x2000 <= c <= 0x200A && c != 0x2007)
        || c in {0x2028, 0x2029, 0x205F, 0x3000}
  {
  }
}
