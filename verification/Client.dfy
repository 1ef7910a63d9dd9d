/** The client as it runs: issuers, transmit buffer, fid table and socket, driven by the handshake and by the
    three operations. Every operation is proved to be a run of the state machine in Session. */
module Clients {
  import opened Wrappers
  import opened Wire
  import opened Replies
  import opened Requests
  import opened TxMessages
  import opened MessageReader
  import opened TextUtilities
  import opened FidTrackers
  import opened Session
  import MT = MessageTypes

  const MAX_MSG_SIZE: uint32 := 16 * 1024
  const PROTOCOL_VERSION: Bytes := [57, 80, 50, 48, 48, 48]

  /** Any server that frames its replies: what it answers may depend on all it has been sent. */
  type Framing = f: seq<Bytes> -> Bytes | forall h :: Framed(f(h)) witness (h: seq<Bytes>) => [4, 0, 0, 0]

  /** It answers `limit` requests and then closes the connection; every finite run is within some limit. */
  datatype Server = Server(limit: nat, reply: Framing)

  function Answer(server: Server, sent: seq<Bytes>): Option<Bytes> {
    if |sent| <= server.limit then Some(server.reply(sent)) else None
  }

  /** The bytes that arrive in answer to the last frame sent. */
  function Arriving(server: Server, sent: seq<Bytes>): Bytes {
    if |sent| <= server.limit then server.reply(sent) else []
  }

  /** What reading and parsing the answer gives the client. */
  function Received(answer: Option<Bytes>): Outcome<Payload> {
    if answer == None then Throw(ConnectionClosed)
    else
      var message :- ReadMessage(answer.value);
      Ok(message.1)
  }

  // What the source writes unchecked fits its buffer. A name longer than the buffer is dropped and takes no room.
  predicate PathFits(path: Bytes) {
    17 + NamesSize(MAX_MSG_SIZE, Split(path)) <= MAX_MSG_SIZE
  }

  predicate NamesFit(uname: Bytes, aname: Bytes) {
    15 + StrSize(MAX_MSG_SIZE, uname) + StrSize(MAX_MSG_SIZE, aname) <= MAX_MSG_SIZE
  }

  /** Request number `k` went out as it was built, under its own tag. */
  ghost predicate SentAs(frame: Bytes, k: nat, request: Request) {
    |frame| <= MAX_MSG_SIZE && frame == Frame(WrittenFields(MAX_MSG_SIZE, TagOf(k), request))
  }

  /** What a server can tell from the frame: its tag always, and the request if and only if nothing was dropped. */
  lemma {:induction false} SentFrameTells(frame: Bytes, k: nat, request: Request)
    requires SentAs(frame, k, request)
    ensures |frame| >= 7 && WireTag(frame) == TagOf(k)
    ensures Decode(frame) == Some((TagOf(k), request)) <==> Faithful(MAX_MSG_SIZE, request)
    ensures Faithful(MAX_MSG_SIZE, request) ==> frame == Encode(TagOf(k), request)
  {
    hide WrittenFields, Decode, Encode;
    BuiltFrameCarriesItsTag(MAX_MSG_SIZE, TagOf(k), request);
    BuiltFrameMeansItsRequestExactly(MAX_MSG_SIZE, TagOf(k), request);
    if Faithful(MAX_MSG_SIZE, request) {
      FaithfulIsReference(MAX_MSG_SIZE, TagOf(k), request);
    }
  }

  /** A path of one name longer than the buffer fits, and what a server gets for it is no request. */
  lemma {:induction false} LongNameIsLost(path: Bytes, fid: Fid, frame: Bytes, k: nat)
    requires |path| > MAX_MSG_SIZE && DELIM !in path && SentAs(frame, k, TWalk(ROOT_FID, fid, Split(path)))
    ensures PathFits(path) && |frame| == 17 && Decode(frame) == None
  {
    hide WrittenFields, Decode, Split;
    SplitOfComponent(path);
    DroppedNameIsLost(MAX_MSG_SIZE, TagOf(k), ROOT_FID, fid, path);
    assert Split(path) == [path] && [path][..0] == [];
    assert NamesSize(MAX_MSG_SIZE, []) == 0 && StrSize(MAX_MSG_SIZE, path) == 0;
  }

  /** Request `k` went out under tag `k`, and what was received for it is the answer to the first k + 1 requests. */
  ghost predicate Lockstep(server: Server, sent: seq<Bytes>, trace: seq<Exchange>) {
    && |sent| == |trace|
    && (forall k :: 0 <= k < |trace| ==> SentAs(sent[k], k, trace[k].request))
    && (forall k :: 0 <= k < |trace| ==> trace[k].reply == Received(Answer(server, sent[..k + 1])))
  }

  lemma {:induction false} LockstepGrows(server: Server, sent: seq<Bytes>, trace: seq<Exchange>, frame: Bytes,
                                         e: Exchange)
    requires Lockstep(server, sent, trace) && SentAs(frame, |sent|, e.request)
    requires e.reply == Received(Answer(server, sent + [frame]))
    ensures Lockstep(server, sent + [frame], trace + [e])
  {
    hide SentAs, Received, Answer;
    var sent', trace', n := sent + [frame], trace + [e], |sent|;
    assert sent'[..n + 1] == sent';
    forall k | 0 <= k < n
      ensures trace'[k].reply == Received(Answer(server, sent'[..k + 1]))
    {
      assert trace'[k] == trace[k] && sent'[..k + 1] == sent[..k + 1];
    }
  }

  class Client {
    const server: Server
    const builder: TxMessageBuilder
    const tx: TxMessage := builder.tx
    const tracker: FidTracker

    var lastTag: Tag
    var lastFid: Fid
    var maxMessageSize: uint32

    /** The socket: frames given to send, and bytes that have arrived but are not read yet. */
    var sent: seq<Bytes>
    var inbound: Bytes

    ghost var trace: seq<Exchange>
    ghost var handshake: seq<Exchange>
    ghost var runs: seq<Run>
    ghost var current: seq<Exchange>
    ghost var phase: Phase

    constructor (server: Server)
      ensures Synced() && trace == [] && runs == [] && lastFid == 0 && tracker.root == None
      ensures this.server == server && maxMessageSize == MAX_MSG_SIZE && fresh(tx) && fresh(tx.buffer) && fresh(tracker)
    {
      this.server := server;
      var message := new TxMessage(MAX_MSG_SIZE);
      builder := new TxMessageBuilder(message);
      tracker := new FidTracker();
      lastTag, lastFid, maxMessageSize := 0, 0, MAX_MSG_SIZE;
      sent, inbound := [], [];
      trace, handshake, runs, current, phase := [], [], [], [], Walking;
    }

    /** Between exchanges. Nothing is left unread, so the next bytes to arrive begin a frame. */
    ghost predicate Synced()
      reads this`inbound, this`sent, this`trace, this`lastTag
    {
      && tx.buffer.Length == MAX_MSG_SIZE && |sent| == |trace|
      && lastTag == (if |trace| == 0 then 0 else (|trace| - 1) % 0x1_0000)
      && Logged()
    }

    ghost predicate Logged()
      reads this`inbound, this`sent, this`trace
    {
      inbound == [] && Lockstep(server, sent, trace)
    }

    // ---------------------------------------------------------------- one exchange

    method IssueTag() returns (tag: Tag)
      modifies this`lastTag
      ensures tag == lastTag == (old(lastTag) + 1) % 0x1_0000
    {
      lastTag := (lastTag + 1) % 0x1_0000;
      tag := lastTag;
    }

    method IssueFid() returns (fid: Fid)
      modifies this`lastFid
      ensures fid == lastFid == (old(lastFid) + 1) % 0x1_0000_0000
    {
      lastFid := (lastFid + 1) % 0x1_0000_0000;
      fid := lastFid;
    }

    /** A request lies built in the transmit buffer, under the tag that is its turn. */
    ghost predicate Ready(request: Request)
      reads this, tx, tx.buffer
    {
      && tx.Valid() && tx.buffer.Length == MAX_MSG_SIZE
      && tx.fields == WrittenFields(MAX_MSG_SIZE, TagOf(|sent|), request)
    }

    method SendMessageInTxBuffer(ghost request: Request)
      requires Ready(request) && inbound == []
      modifies this`sent, this`inbound, tx.buffer
      ensures |sent| == |old(sent)| + 1 && sent[..|old(sent)|] == old(sent)
      ensures SentAs(sent[|old(sent)|], |old(sent)|, request)
      ensures inbound == Arriving(server, sent)
    {
      hide WrittenFields;
      var data := tx.GetData();
      sent := sent + [data];
      if |sent| <= server.limit {
        inbound := inbound + server.reply(sent);
      }
    }

    /** recv with MSG_PEEK: the length of the frame that has arrived. A closed connection throws; of fewer than four
        bytes the rest of the length would be read from a buffer nobody wrote. */
    method PeekForMessageLength() returns (r: Outcome<uint32>)
      ensures r == if inbound == [] then Throw(ConnectionClosed)
                   else if |inbound| < 4 then Throw(Undefined)
                   else Ok(LeValue(inbound[..4]))
    {
      if inbound == [] {
        return Throw(ConnectionClosed);
      }
      if |inbound| < 4 {
        return Throw(Undefined);
      }
      var length := ParseMessageLength(inbound[..4]);
      return Ok(length);
    }

    /** recv, delivering in full what the peek announced. */
    method ReadData(length: uint32) returns (data: Bytes)
      requires length <= |inbound|
      modifies this`inbound
      ensures data == old(inbound)[..length] && inbound == old(inbound)[length..]
    {
      data := inbound[..length];
      inbound := inbound[length..];
    }

    /** Reading takes exactly the answer off the stream, also when parsing it then throws. */
    method ReadParseIncomingMessage(ghost request: Request) returns (r: Outcome<Payload>)
      requires inbound == Arriving(server, sent)
      modifies this`inbound, this`trace
      ensures inbound == []
      ensures r == Received(Answer(server, sent))
      ensures trace == old(trace) + [Exchange(request, r)]
    {
      r := ReadIncomingReply();
      trace := trace + [Exchange(request, r)];
    }

    method ReadIncomingReply() returns (r: Outcome<Payload>)
      requires inbound == Arriving(server, sent)
      modifies this`inbound
      ensures inbound == []
      ensures r == Received(Answer(server, sent))
    {
      assert |sent| <= server.limit ==> Framed(inbound);
      var length :- PeekForMessageLength();
      var frame := ReadData(length);
      assert frame == old(inbound);
      var message :- ParseMessage(frame);
      return Ok(message.1);
    }

    /** Sends the request that lies ready and waits for its reply. */
    method Transact(ghost request: Request) returns (response: Outcome<Payload>)
      requires Logged() && tx.buffer.Length == MAX_MSG_SIZE && lastTag == |trace| % 0x1_0000 && Ready(request)
      requires |sent| == |trace|
      modifies this`sent, this`inbound, this`trace, tx.buffer
      ensures Synced() && trace == old(trace) + [Exchange(request, response)]
      ensures response == Throw(ConnectionClosed) <==> |sent| > server.limit
    {
      hide SentAs, Ready, Received, Arriving, Lockstep;
      SendMessageInTxBuffer(request);
      response := ReadParseIncomingMessage(request);
      NoneOtherThrowsClosed(Answer(server, sent));
      ghost var frame := sent[|old(sent)|];
      assert sent == old(sent) + [frame];
      LockstepGrows(server, old(sent), old(trace), frame, Exchange(request, response));
    }

    // ---------------------------------------------------------------- handshake

    /** One more exchange, asking `request`; nothing else about the session changes. */
    twostate predicate Asked(new request: Request, new response: Outcome<Payload>)
      reads this
    {
      && Synced() && trace == old(trace) + [Exchange(request, response)]
      && (response == Throw(ConnectionClosed) <==> |sent| > server.limit)
    }

    method DoVersionHandshake() returns (r: Outcome<()>, ghost response: Outcome<Payload>)
      requires Synced() && trace == [] && maxMessageSize == MAX_MSG_SIZE
      modifies this`sent, this`inbound, this`trace, this`maxMessageSize, tx, tx.buffer
      ensures Asked(TVersion(MAX_MSG_SIZE, PROTOCOL_VERSION), response)
      ensures r == if response.Throw? then Throw(response.error)
                   else if response.value.RVersion? then Ok(())
                   else if response.value.RError? then Throw(VersionHandshakeError)
                   else Throw(UnexpectedMessageReceived)
      ensures maxMessageSize == if r.Ok? && response.value.msize < 16384 then response.value.msize else 16384
    {
      builder.BuildTVersion(maxMessageSize, PROTOCOL_VERSION);
      var received := Transact(TVersion(MAX_MSG_SIZE, PROTOCOL_VERSION));
      response := received;
      var payload :- received;
      if payload.RVersion? {
        maxMessageSize := Min(maxMessageSize, payload.msize);
        return Ok(()), response;
      } else if payload.RError? {
        return Throw(VersionHandshakeError), response;
      } else {
        return Throw(UnexpectedMessageReceived), response;
      }
    }

    /** Authentication succeeds when the server declines it. */
    method DoAuthentication(uname: Bytes, aname: Bytes) returns (r: Outcome<()>, ghost response: Outcome<Payload>)
      requires Synced() && trace != [] && NamesFit(uname, aname)
      modifies this`sent, this`inbound, this`trace, this`lastTag, tx, tx.buffer
      ensures Asked(TAuth(NOFID, uname, aname), response)
      ensures r == if response.Throw? then Throw(response.error)
                   else if response.value.RError? then Ok(())
                   else if response.value.RAuth? then Throw(ServerRequestedAuthentication)
                   else Throw(UnexpectedMessageReceived)
    {
      var tag := IssueTag();
      builder.BuildTAuth(tag, NOFID, uname, aname);
      var received := Transact(TAuth(NOFID, uname, aname));
      response := received;
      var payload :- received;
      if payload.RError? {
        return Ok(()), response;
      } else if payload.RAuth? {
        return Throw(ServerRequestedAuthentication), response;
      } else {
        return Throw(UnexpectedMessageReceived), response;
      }
    }

    method DoAttachment(uname: Bytes, aname: Bytes) returns (r: Outcome<()>, ghost response: Outcome<Payload>)
      requires Synced() && trace != [] && NamesFit(uname, aname) && tracker.root == None
      modifies this`sent, this`inbound, this`trace, this`lastTag, this`lastFid, tx, tx.buffer, tracker
      ensures lastFid == (old(lastFid) + 1) % 0x1_0000_0000
      ensures Asked(TAttach(lastFid, NOFID, uname, aname), response)
      ensures r == if response.Throw? then Throw(response.error)
                   else if response.value.RAttach? then Ok(())
                   else Throw(UnexpectedMessageReceived)
      ensures tracker.root == if r.Ok? then Some(FidEntry(lastFid, [], response.value.qid)) else None
    {
      var fid := IssueFid();
      var tag := IssueTag();
      builder.BuildTAttach(tag, fid, NOFID, uname, aname);
      var received := Transact(TAttach(fid, NOFID, uname, aname));
      response := received;
      var payload :- received;
      if payload.RAttach? {
        tracker.SetRoot(fid, payload.qid);
        return Ok(()), response;
      } else {
        return Throw(UnexpectedMessageReceived), response;
      }
    }

    /** Ready for an operation. The handshake and the finished runs are the whole conversation; the root entry is
        set, and the fids issued are the root's and one for each run. */
    ghost predicate Connected()
      reads this, tracker
    {
      Synced() && Settled() && trace == Past() && lastFid == (|runs| + 1) % 0x1_0000_0000
    }

    ghost predicate Settled()
      reads this`handshake, this`runs, tracker
    {
      handshake != [] && History(runs) && tracker.root.Some? && tracker.root.value.fid == ROOT_FID
    }

    ghost function Past(): seq<Exchange>
      reads this`handshake, this`runs
    {
      handshake + AllExchanges(runs)
    }

    /** The handshake as it went: version, unless it is answered by RVersion nothing more; auth, unless it is answered
        by RError nothing more; attach. What is thrown follows from the last reply. */
    ghost predicate ShookHands(uname: Bytes, aname: Bytes, r: Outcome<()>)
      reads this`trace, this`maxMessageSize
    {
      && 1 <= |trace| <= 3
      && trace[0].request == TVersion(16384, [57, 80, 50, 48, 48, 48])
      && (|trace| >= 2 <==> trace[0].reply.Ok? && trace[0].reply.value.RVersion?)
      && (|trace| >= 2 ==> trace[1].request == TAuth(0xFFFF_FFFF, uname, aname))
      && (|trace| == 3 <==> |trace| >= 2 && trace[1].reply.Ok? && trace[1].reply.value.RError?)
      && (|trace| == 3 ==> trace[2].request == TAttach(1, 0xFFFF_FFFF, uname, aname))
      && maxMessageSize == (if |trace| >= 2 && trace[0].reply.value.msize < 16384 then trace[0].reply.value.msize
                            else 16384)
      && var reply := trace[|trace| - 1].reply;
         r == if reply.Throw? then Throw(reply.error)
              else if |trace| == 3 && reply.value.RAttach? then Ok(())
              else if |trace| == 2 && reply.value.RAuth? then Throw(ServerRequestedAuthentication)
              else if |trace| == 1 && reply.value.RError? then Throw(VersionHandshakeError)
              else Throw(UnexpectedMessageReceived)
    }

    /** What the constructor of the source does once the socket is connected: version, then auth, then attach. */
    method Handshake(uname: Bytes, aname: Bytes) returns (r: Outcome<()>)
      requires Synced() && trace == [] && runs == [] && lastFid == 0 && tracker.root == None
      requires maxMessageSize == MAX_MSG_SIZE && NamesFit(uname, aname)
      modifies this, tx, tx.buffer, tracker
      ensures Synced() && runs == []
      ensures r.Ok? ==> Connected() && |trace| == 3 && trace[2].reply.Ok? && trace[2].reply.value.RAttach?
                        && tracker.root == Some(FidEntry(ROOT_FID, [], trace[2].reply.value.qid))
      ensures ShookHands(uname, aname, r)
    {
      hide Logged, Follows;
      r := ShakeHands(uname, aname);
      handshake := trace;
      assert trace == handshake + AllExchanges([]);
    }

    method ShakeHands(uname: Bytes, aname: Bytes) returns (r: Outcome<()>)
      requires Synced() && trace == [] && lastFid == 0 && tracker.root == None
      requires maxMessageSize == MAX_MSG_SIZE && NamesFit(uname, aname)
      modifies this`sent, this`inbound, this`trace, this`lastTag, this`lastFid, this`maxMessageSize
      modifies tx, tx.buffer, tracker
      ensures Synced()
      ensures r.Ok? ==> |trace| == 3 && lastFid == ROOT_FID && trace[2].reply.Ok? && trace[2].reply.value.RAttach?
                        && tracker.root == Some(FidEntry(ROOT_FID, [], trace[2].reply.value.qid))
      ensures ShookHands(uname, aname, r)
    {
      hide Logged;
      ghost var response;
      var done;
      done, response :- DoVersionHandshake();
      done, response :- DoAuthentication(uname, aname);
      done, response :- DoAttachment(uname, aname);
      return Ok(());
    }

    // ---------------------------------------------------------------- one operation under way

    /** The conversation since the last finished run has taken the operation to `phase`. */
    ghost predicate Busy(op: Operation, fid: Fid)
      reads this, tracker
    {
      Synced() && trace != [] && InRun(op, fid)
    }

    ghost predicate InRun(op: Operation, fid: Fid)
      reads this`trace, this`handshake, this`runs, this`current, this`phase, this`lastFid, tracker
    {
      && Settled() && trace == Past() + current
      && fid == FidOf(|runs|) == lastFid
      && Follows(op, ROOT_FID, fid, Walking, current, phase)
    }

    /** The request of the old phase was answered by `reply`, and the machine has advanced on it. */
    twostate predicate Stepped(op: Operation, fid: Fid, new reply: Outcome<Payload>)
      reads this, tracker
    {
      && Busy(op, fid) && |sent| == |old(sent)| + 1
      && !old(phase).Done? && phase == Advance(op, old(phase), reply)
      && current == old(current) + [Exchange(RequestOf(op, ROOT_FID, fid, old(phase)), reply)]
      && (reply == Throw(ConnectionClosed) <==> |sent| > server.limit)
    }

    /** Transact, seen as a step of the operation. */
    method Ask(ghost op: Operation, ghost fid: Fid, ghost request: Request) returns (response: Outcome<Payload>)
      requires Logged() && tx.buffer.Length == MAX_MSG_SIZE && lastTag == |trace| % 0x1_0000 && Ready(request)
      requires |sent| == |trace|
      requires trace != [] && InRun(op, fid) && !phase.Done? && request == RequestOf(op, ROOT_FID, fid, phase)
      modifies this`sent, this`inbound, this`trace, this`current, this`phase, tx.buffer
      ensures Stepped(op, fid, response)
    {
      hide Logged, Ready, Advance, Settled, Follows, RequestOf;
      response := Transact(request);
      ghost var e := Exchange(request, response);
      FollowsSnoc(op, ROOT_FID, fid, Walking, current, phase, e);
      assert Past() + current + [e] == Past() + (current + [e]);
      current, phase := current + [e], Advance(op, phase, response);
    }

    method DoOpen(fid: Fid, mode: uint8, ghost op: Operation)
      returns (r: Outcome<Payload>, ghost reply: Outcome<Payload>)
      requires Busy(op, fid) && phase == Opening && mode == READ_MODE
      modifies this`sent, this`inbound, this`trace, this`lastTag, this`current, this`phase, tx, tx.buffer
      ensures r == Await(MT.R_OPEN, reply) && Stepped(op, fid, reply)
    {
      hide Logged, InRun, Advance;
      var tag := IssueTag();
      builder.BuildTOpen(tag, fid, mode);
      var response := Ask(op, fid, TOpen(fid, mode));
      r, reply := Await(MT.R_OPEN, response), response;
    }

    method DoStat(fid: Fid, ghost op: Operation) returns (r: Outcome<Payload>, ghost reply: Outcome<Payload>)
      requires Busy(op, fid) && phase == Stating
      modifies this`sent, this`inbound, this`trace, this`lastTag, this`current, this`phase, tx, tx.buffer
      ensures r == Await(MT.R_STAT, reply) && Stepped(op, fid, reply)
    {
      hide Logged, InRun, Advance;
      var tag := IssueTag();
      builder.BuildTStat(tag, fid);
      var response := Ask(op, fid, TStat(fid));
      r, reply := Await(MT.R_STAT, response), response;
    }

    method DoRead(fid: Fid, offset: uint64, count: uint32, ghost op: Operation)
      returns (r: Outcome<Payload>, ghost reply: Outcome<Payload>)
      requires Busy(op, fid) && !phase.Done? && RequestOf(op, ROOT_FID, fid, phase) == TRead(fid, offset, count)
      modifies this`sent, this`inbound, this`trace, this`lastTag, this`current, this`phase, tx, tx.buffer
      ensures r == Await(MT.R_READ, reply) && Stepped(op, fid, reply)
    {
      hide Logged, InRun, Advance;
      var tag := IssueTag();
      builder.BuildTRead(tag, fid, offset, count);
      var response := Ask(op, fid, TRead(fid, offset, count));
      r, reply := Await(MT.R_READ, response), response;
    }

    method DoClunk(fid: Fid, ghost op: Operation) returns (r: Outcome<Payload>, ghost reply: Outcome<Payload>)
      requires Busy(op, fid) && phase.Clunking?
      modifies this`sent, this`inbound, this`trace, this`lastTag, this`current, this`phase, tx, tx.buffer
      ensures r == Await(MT.R_CLUNK, reply) && Stepped(op, fid, reply)
    {
      hide Logged, InRun, Advance;
      var tag := IssueTag();
      builder.BuildTClunk(tag, fid);
      var response := Ask(op, fid, TClunk(fid));
      r, reply := Await(MT.R_CLUNK, response), response;
    }

    ghost method Begin(op: Operation)
      requires Settled() && trace == Past() && lastFid == FidOf(|runs|)
      modifies this`current, this`phase
      ensures InRun(op, lastFid) && phase == Walking && current == []
    {
      current, phase := [], Walking;
      assert Past() + [] == Past();
    }

    /** The walk message itself, under a tag and with a fid already issued. */
    method AskWalk(tag: Tag, rootFid: Fid, newFid: Fid, wnames: seq<Bytes>, ghost op: Operation)
      returns (response: Outcome<Payload>)
      requires Logged() && tx.buffer.Length == MAX_MSG_SIZE && |sent| == |trace|
      requires trace != [] && tag == lastTag == |trace| % 0x1_0000
      requires InRun(op, newFid) && phase == Walking && rootFid == ROOT_FID && wnames == Split(op.path)
      requires 17 + NamesSize(MAX_MSG_SIZE, wnames) <= MAX_MSG_SIZE
      modifies this`sent, this`inbound, this`trace, this`current, this`phase, tx, tx.buffer
      ensures Stepped(op, newFid, response)
    {
      hide Logged, InRun, Advance, Split, NamesSize;
      builder.BuildTWalk(tag, rootFid, newFid, wnames);
      response := Ask(op, newFid, TWalk(rootFid, newFid, wnames));
    }

    /** Issues the operation's fid and walks it from the root. */
    method DoWalk(path: Bytes, ghost op: Operation) returns (r: Outcome<Fid>, ghost reply: Outcome<Payload>)
      requires Connected() && PathFits(path) && op.path == path
      modifies this`sent, this`inbound, this`trace, this`lastTag, this`lastFid, this`current, this`phase, tx, tx.buffer
      ensures Busy(op, FidOf(|runs|)) && phase == Advance(op, Walking, reply)
      ensures |current| == 1
      ensures |sent| == |old(sent)| + 1 && (reply == Throw(ConnectionClosed) <==> |sent| > server.limit)
      ensures Await(MT.R_WALK, reply).Ok? ==> r == Ok(FidOf(|runs|))
      ensures Await(MT.R_WALK, reply).Throw? ==> r == Throw(Await(MT.R_WALK, reply).error)
    {
      hide Logged, Advance, InRun, Split, NamesSize, AllExchanges, History;
      var components := SplitToPathComponents(path);
      var tag := IssueTag();
      var rootFid := tracker.root.value.fid;
      var newFid := IssueFid();
      Begin(op);
      var response := AskWalk(tag, rootFid, newFid, components, op);
      reply := response;
      var payload := Await(MT.R_WALK, response);
      r := if payload.Ok? then Ok(newFid) else Throw(payload.error);
    }

    // ---------------------------------------------------------------- operations

    /** `op` has ended. It is one more finished run under the next fid, and the client is ready for another; or it
        stands where C++ defines nothing, and nothing is ready. */
    twostate predicate Ended(op: Operation, new result: Outcome<Value>)
      reads this, tracker
    {
      phase == Done(result) &&
      if result == Throw(Undefined) then runs == old(runs) && Busy(op, FidOf(|runs|))
      else Connected() && |runs| == |old(runs)| + 1 && runs[..|old(runs)|] == old(runs)
           && runs[|old(runs)|].op == op && runs[|old(runs)|].result == result
    }

    /** The operation that is done joins the finished runs, unless what it did last is undefined. */
    ghost method Conclude(op: Operation)
      requires Busy(op, FidOf(|runs|)) && phase.Done?
      modifies this`runs, this`current
      ensures Ended(op, phase.result)
      ensures phase.result != Throw(Undefined) ==> runs[|old(runs)|].exs == old(current)
    {
      hide Logged, Follows;
      if phase.result != Throw(Undefined) {
        var run := Run(op, FidOf(|runs|), current, phase.result);
        assert (runs + [run])[..|runs|] == runs;
        assert handshake + AllExchanges(runs) + current == handshake + (AllExchanges(runs) + current);
        assert RunOk(run, |runs|);
        runs, current := runs + [run], [];
      }
    }

    method GetDirectoryContents(path: Bytes) returns (r: Outcome<seq<Stat>>)
      requires Connected() && PathFits(path)
      modifies this`sent, this`inbound, this`trace, this`lastTag, this`lastFid, this`current, this`phase, this`runs
      modifies tx, tx.buffer
      ensures Ended(List(path), AsEntries(r))
      ensures forall dir :: DirectoryServed(this, old(|trace|), path, dir) ==> r == Ok(dir)
    {
      ghost var before := |trace|;
      assert trace == Past();
      hide Connected, Busy, DirectoryServed;
      r := ListEntries(path);
      forall dir | DirectoryServed(this, before, path, dir)
        ensures r == Ok(dir)
      {
        LastListingIsExact(this, before, path, dir, AsEntries(r));
      }
      Conclude(List(path));
    }

    method ListEntries(path: Bytes) returns (r: Outcome<seq<Stat>>)
      requires Connected() && PathFits(path)
      modifies this`sent, this`inbound, this`trace, this`lastTag, this`lastFid, this`current, this`phase, tx, tx.buffer
      ensures Busy(List(path), FidOf(|runs|)) && phase == Done(AsEntries(r))
    {
      hide Busy, Connected, PathFits, ReadStats;
      ghost var op := List(path);
      ghost var reply;
      var fid, payload;
      fid, reply :- DoWalk(path, op);
      payload, reply :- DoOpen(fid, READ_MODE, op);
      var rstats;
      rstats :- ReadEntries(fid, op);
      payload, reply :- DoClunk(fid, op);
      return Ok(rstats);
    }

    /** The read loop: each reply's entries are appended and its size moves the offset of the next request. */
    method ReadEntries(fid: Fid, ghost op: Operation) returns (r: Outcome<seq<Stat>>)
      requires Busy(op, fid) && phase == Listing(0, []) && |sent| <= server.limit
      modifies this`sent, this`inbound, this`trace, this`lastTag, this`current, this`phase, tx, tx.buffer
      ensures Busy(op, fid)
      ensures phase == if r.Ok? then Clunking(Entries(r.value)) else Done(Throw(r.error))
    {
      hide Busy, ReadStats;
      ghost var reply;
      var payload;
      var rstats: seq<Stat>, offset: uint64 := [], 0;
      payload, reply :- DoRead(fid, 0, DIRECTORY_READ_SIZE, op);
      while |payload.data| > 0
        invariant Busy(op, fid) && |sent| <= server.limit && payload.RRead?
        invariant phase == AfterDirectoryRead(offset, rstats, payload.data)
        decreases server.limit - |sent|
      {
        rstats :- ReadRStatsFromData(payload.data, rstats);
        offset := (offset + |payload.data|) % 0x1_0000_0000_0000_0000;
        payload, reply :- DoRead(fid, offset, DIRECTORY_READ_SIZE, op);
      }
      return Ok(rstats);
    }

    method GetFileInformation(path: Bytes) returns (r: Outcome<Stat>)
      requires Connected() && PathFits(path)
      modifies this`sent, this`inbound, this`trace, this`lastTag, this`lastFid, this`current, this`phase, this`runs
      modifies tx, tx.buffer
      ensures Ended(Info(path), AsInformation(r))
      ensures forall stat :: StatServed(this, old(|trace|), path, stat) ==> r == Ok(stat)
    {
      ghost var before := |trace|;
      assert trace == Past();
      hide Connected, Busy, StatServed;
      r := StatFile(path);
      forall stat | StatServed(this, before, path, stat)
        ensures r == Ok(stat)
      {
        LastInformationIsExact(this, before, path, stat, AsInformation(r));
      }
      Conclude(Info(path));
    }

    method StatFile(path: Bytes) returns (r: Outcome<Stat>)
      requires Connected() && PathFits(path)
      modifies this`sent, this`inbound, this`trace, this`lastTag, this`lastFid, this`current, this`phase, tx, tx.buffer
      ensures Busy(Info(path), FidOf(|runs|)) && phase == Done(AsInformation(r))
    {
      hide Busy, Connected, PathFits, ReadStats;
      ghost var op := Info(path);
      ghost var reply;
      var fid, rstat, clunked;
      fid, reply :- DoWalk(path, op);
      rstat, reply :- DoStat(fid, op);
      clunked, reply :- DoClunk(fid, op);
      return Ok(rstat.stat);
    }

    /** The count returned is the size of the reply; what is copied is capped by the caller's buffer length. */
    method ReadFile(path: Bytes, offset: uint64, buffer: array<byte>, bufferLength: uint64) returns (r: Outcome<nat>)
      requires Connected() && PathFits(path) && buffer != tx.buffer && bufferLength <= buffer.Length
      modifies this`sent, this`inbound, this`trace, this`lastTag, this`lastFid, this`current, this`phase, this`runs
      modifies tx, tx.buffer, buffer
      ensures phase.Done? && Ended(Fetch(path, offset, bufferLength), phase.result) && r == AsCount(phase.result)
      ensures r != Throw(Undefined) ==>
                var data := FetchedData(runs[|old(runs)|].exs);
                && (r.Ok? ==> r.value == |data|)
                && forall i :: 0 <= i < buffer.Length ==>
                     buffer[..][i] == if i < bufferLength && i < |data| then data[i] else old(buffer[..])[i]
      ensures forall content :: FileServed(this, old(|trace|), path, content) ==>
                Delivered(content, offset, bufferLength, old(buffer[..]), buffer[..], r)
    {
      ghost var before, was := |trace|, buffer[..];
      assert trace == Past();
      hide Connected, Busy, FileServed, Delivered;
      r := FetchFile(path, offset, buffer, bufferLength);
      forall content | FileServed(this, before, path, content)
        ensures Delivered(content, offset, bufferLength, was, buffer[..], r)
      {
        LastFileReadIsExact(this, before, path, offset, bufferLength, content, was, buffer[..], phase.result);
      }
      hide Overlay, FetchedData, AsCount;
      OverlayExactly(was, bufferLength, current, buffer[..]);
      Conclude(Fetch(path, offset, bufferLength));
    }

    method FetchFile(path: Bytes, offset: uint64, buffer: array<byte>, bufferLength: uint64) returns (r: Outcome<nat>)
      requires Connected() && PathFits(path) && buffer != tx.buffer && bufferLength <= buffer.Length
      modifies this`sent, this`inbound, this`trace, this`lastTag, this`lastFid, this`current, this`phase
      modifies tx, tx.buffer, buffer
      ensures Busy(Fetch(path, offset, bufferLength), FidOf(|runs|)) && phase.Done? && r == AsCount(phase.result)
      ensures r.Ok? ==> r.value == |FetchedData(current)|
      ensures buffer[..] == Overlay(old(buffer[..]), bufferLength, FetchedData(current))
    {
      hide Busy, Connected, PathFits;
      ghost var op := Fetch(path, offset, bufferLength);
      ghost var reply;
      var data, fid, clunked;
      OverlayNone(buffer[..], bufferLength);
      data, fid := OpenAndRead(path, offset, bufferLength, op);
      assert buffer[..] == old(buffer[..]);
      if data.Throw? {
        return Throw(data.error);
      }
      CopyOut(buffer, bufferLength, data.value);
      clunked, reply := DoClunk(fid, op);
      assert buffer[..] == Overlay(old(buffer[..]), bufferLength, data.value);
      if clunked.Throw? {
        return Throw(clunked.error);
      }
      return Ok(|data.value|);
    }

    /** Walk, open, narrow the length, read. */
    method OpenAndRead(path: Bytes, offset: uint64, length: uint64, ghost op: Operation)
      returns (r: Outcome<Bytes>, fid: Fid)
      requires Connected() && PathFits(path) && op == Fetch(path, offset, length)
      modifies this`sent, this`inbound, this`trace, this`lastTag, this`lastFid, this`current, this`phase, tx, tx.buffer
      ensures Busy(op, FidOf(|runs|))
      ensures r.Ok? ==> fid == FidOf(|runs|) && phase == Clunking(Contents(r.value)) && |current| == 3
      ensures r.Throw? ==> phase == Done(Throw(r.error))
      ensures FetchedData(current) == if r.Ok? then r.value else []
    {
      hide Busy, Connected, FetchedData;
      ghost var reply;
      var ready;
      ready, fid := WalkAndOpen(path, op);
      if ready.Throw? {
        NothingFetched(current);
        return Throw(ready.error), fid;
      }
      if length >= 0x1_0000_0000 {
        NothingFetched(current);
        return Throw(NarrowingError), fid;
      }
      var payload;
      payload, reply := DoRead(fid, offset, length, op);
      Fetched(current, reply);
      r := if payload.Ok? then Ok(payload.value.data) else Throw(payload.error);
    }

    method WalkAndOpen(path: Bytes, ghost op: Operation) returns (r: Outcome<()>, fid: Fid)
      requires Connected() && PathFits(path) && op.path == path && !op.Info?
      modifies this`sent, this`inbound, this`trace, this`lastTag, this`lastFid, this`current, this`phase, tx, tx.buffer
      ensures Busy(op, FidOf(|runs|)) && |current| <= 2
      ensures r.Ok? ==> fid == FidOf(|runs|) && phase == AfterOpen(op) && |current| == 2
      ensures r.Throw? ==> phase == Done(Throw(r.error))
    {
      hide Busy, Connected;
      ghost var reply;
      var walked, ropen;
      fid := 0;
      walked, reply := DoWalk(path, op);
      if walked.Throw? {
        return Throw(walked.error), fid;
      }
      fid := walked.value;
      ropen, reply := DoOpen(fid, READ_MODE, op);
      r := if ropen.Ok? then Ok(()) else Throw(ropen.error);
    }

    /** min(read size, buffer length), then memcpy_s. */
    method CopyOut(buffer: array<byte>, bufferLength: uint64, data: Bytes)
      requires bufferLength <= buffer.Length
      modifies buffer
      ensures buffer[..] == Overlay(old(buffer[..]), bufferLength, data)
    {
      var count := if |data| < bufferLength then |data| else bufferLength;
      forall i | 0 <= i < count {
        buffer[i] := data[i];
      }
    }

    /** Client::readFile: every exception becomes -1. */
    method ReadFileOrMinusOne(path: Bytes, offset: uint64, buffer: array<byte>, bufferLength: uint64)
      returns (count: int)
      requires Connected() && PathFits(path) && buffer != tx.buffer && bufferLength <= buffer.Length
      modifies this`sent, this`inbound, this`trace, this`lastTag, this`lastFid, this`current, this`phase, this`runs
      modifies tx, tx.buffer, buffer
      ensures phase.Done? && Ended(Fetch(path, offset, bufferLength), phase.result)
      ensures phase.result != Throw(Undefined) ==>
                var data := FetchedData(runs[|old(runs)|].exs);
                && count == (if phase.result.Ok? then |data| else -1)
                && forall i :: 0 <= i < buffer.Length ==>
                     buffer[..][i] == if i < bufferLength && i < |data| then data[i] else old(buffer[..])[i]
      ensures forall content :: FileServed(this, old(|trace|), path, content) ==>
                exists r :: Delivered(content, offset, bufferLength, old(buffer[..]), buffer[..], r)
                            && count == if r.Ok? then r.value else -1
    {
      var r := ReadFile(path, offset, buffer, bufferLength);
      count := if r.Ok? then r.value else -1;
    }
  }

  /** Byte by byte: as much of the read reply's data as the length allows, and then what was there before. */
  lemma {:induction false} OverlayExactly(was: Bytes, length: nat, exs: seq<Exchange>, now: Bytes)
    requires length <= |was| && now == Overlay(was, length, FetchedData(exs))
    ensures |exs| >= 3 && exs[2].reply.Ok? && exs[2].reply.value.RRead? ==> FetchedData(exs) == exs[2].reply.value.data
    ensures var data := FetchedData(exs);
            && |now| == |was|
            && forall i :: 0 <= i < |was| ==> now[i] == if i < length && i < |data| then data[i] else was[i]
  {
  }

  lemma {:induction false} OverlayNone(buffer: Bytes, length: nat)
    requires length <= |buffer|
    ensures Overlay(buffer, length, []) == buffer
  {
  }

  function AsEntries(r: Outcome<seq<Stat>>): Outcome<Value> {
    match r
    case Ok(stats) => Ok(Entries(stats))
    case Throw(e) => Throw(e)
  }

  function AsInformation(r: Outcome<Stat>): Outcome<Value> {
    match r
    case Ok(stat) => Ok(Information(stat))
    case Throw(e) => Throw(e)
  }

  function AsCount(r: Outcome<Value>): Outcome<nat> {
    match r
    case Ok(Contents(data)) => Ok(|data|)
    case Ok(_) => Ok(0)
    case Throw(e) => Throw(e)
  }

  /** The buffer after at most `length` bytes of `data` were copied to its start. */
  function Overlay(buffer: Bytes, length: nat, data: Bytes): (b: Bytes)
    requires length <= |buffer|
    ensures |b| == |buffer|
  {
    var n := if |data| < length then |data| else length;
    data[..n] + buffer[n..]
  }

  /** The server answers every request under the tag the request came with. */
  ghost predicate EchoesTags(server: Server) {
    forall h: seq<Bytes> :: h != [] && |h[|h| - 1]| >= 7 ==> Echoed(h[|h| - 1], server.reply(h))
  }

  ghost predicate Echoed(request: Bytes, reply: Bytes)
    requires |request| >= 7
  {
    ReadMessage(reply).Ok? ==> ReadMessage(reply).value.0 == WireTag(request)
  }

  lemma {:induction false} TagOnWire(c: Client, k: nat)
    requires c.Synced() && k < |c.trace|
    ensures |c.sent[k]| >= 7 && WireTag(c.sent[k]) == TagOf(k)
  {
    hide WireTag, SentAs, TagOf, Decode, Encode, Faithful;
    assert SentAs(c.sent[k], k, c.trace[k].request);
    SentFrameTells(c.sent[k], k, c.trace[k].request);
  }

  /** What the client received for request `k` is what the server answered to the first k + 1 requests, or a closed
      connection when it had no answer left. */
  lemma {:induction false} RepliesAreTheServers(c: Client, k: nat)
    requires c.Synced() && k < |c.trace|
    ensures c.trace[k].reply == if k + 1 > c.server.limit then Throw(ConnectionClosed)
                                else if ReadMessage(c.server.reply(c.sent[..k + 1])).Throw?
                                then Throw(ReadMessage(c.server.reply(c.sent[..k + 1])).error)
                                else Ok(ReadMessage(c.server.reply(c.sent[..k + 1])).value.1)
  {
    hide ReadMessage, SentAs;
  }

  /** Lockstep: the reply read after request `k` carries that request's tag, although no code compares tags. */
  lemma {:induction false} RepliesCarryTheirTags(c: Client, k: nat)
    requires c.Synced() && EchoesTags(c.server) && k < |c.trace| && c.trace[k].reply.Ok?
    ensures ReadMessage(c.server.reply(c.sent[..k + 1])) == Ok((TagOf(k), c.trace[k].reply.value))
  {
    hide ReadMessage, WireTag, SentAs;
    TagOnWire(c, k);
    var h := c.sent[..k + 1];
    assert h[|h| - 1] == c.sent[k];
    assert Echoed(h[|h| - 1], c.server.reply(h));
  }

  /** On the wire, no tag comes back within 65536 requests, but that request 65535 repeats the NOTAG of request 0. */
  lemma {:induction false} TagsAreDistinctInAWindow(c: Client, j: nat, k: nat)
    requires c.Synced() && j < k < |c.trace| && k < j + 0x1_0000
    ensures |c.sent[j]| >= 7 && |c.sent[k]| >= 7
    ensures WireTag(c.sent[j]) == WireTag(c.sent[k]) <==> j == 0 && k == 0xFFFF
  {
    hide WireTag, SentAs;
    TagOnWire(c, j);
    TagOnWire(c, k);
    TagRepeatsExactly(j, k);
  }

  lemma {:induction false} TagRepeatsExactly(j: nat, k: nat)
    requires j < k < j + 0x1_0000
    ensures TagOf(j) == TagOf(k) <==> j == 0 && k == 0xFFFF
  {
  }

  /** Every session, failing operations included, with a server that conforms from the attach on: its live fids are
      the root and one for each operation that was tripped after a complete walk. */
  lemma {:induction false} SessionFidAccounting(c: Client)
    requires c.Connected() && |c.runs| + 1 < 0xFFFF_FFFF
    requires Conforms({ROOT_FID}, c.trace[|c.handshake|..])
    ensures LiveAfter({ROOT_FID}, c.trace[|c.handshake|..]) == {ROOT_FID} + LeakedFids(c.runs)
    ensures LiveAfter({ROOT_FID}, c.trace[|c.handshake|..]) == {ROOT_FID} <==>
            forall i :: 0 <= i < |c.runs| ==> !Leaks(c.runs[i].op, c.runs[i].exs)
  {
    hide Client.Logged, Leaks, Follows, LiveAfter, Conforms;
    assert c.trace[|c.handshake|..] == AllExchanges(c.runs);
    FidAccounting(c.runs);
    FidsReturnExactly(c.runs);
  }

  // ---------------------------------------------------------------- operations against a server that serves

  /** The server reads out `dir` at `path` whenever it answers from request number `before` on, it has |dir| + 4 answers
      left there, and every entry fits the reads the client sends. */
  ghost predicate DirectoryServed(c: Client, before: nat, path: Bytes, dir: seq<Stat>)
    reads c`trace
  {
    && StatsOk(dir) && |EncStats(dir)| < 0x1_0000_0000_0000_0000 && before + |dir| + 4 <= c.server.limit
    && (forall i :: 0 <= i < |dir| ==> |EncStat(dir[i])| <= 65535)
    && forall k :: before <= k < |c.trace| && k + 1 <= c.server.limit ==> ServesDirectory(path, dir, c.trace[k])
  }

  /** It reports `stat` at `path`, with three answers left. */
  ghost predicate StatServed(c: Client, before: nat, path: Bytes, stat: Stat)
    reads c`trace
  {
    && before + 3 <= c.server.limit
    && forall k :: before <= k < |c.trace| && k + 1 <= c.server.limit ==> ServesStat(path, stat, c.trace[k])
  }

  /** It reads out `content` at `path`, with four answers left. */
  ghost predicate FileServed(c: Client, before: nat, path: Bytes, content: Bytes)
    reads c`trace
  {
    && before + 4 <= c.server.limit
    && forall k :: before <= k < |c.trace| && k + 1 <= c.server.limit ==> ServesFile(path, content, c.trace[k])
  }

  /** What a file read owes its caller, `was` and `now` being the buffer before and after: the buffer starts with bytes
      of the file from the offset on and is unchanged beyond them, and the result is their number. A length beyond
      32 bits is refused and leaves the buffer as it was. */
  ghost predicate Delivered(content: Bytes, offset: nat, length: nat, was: Bytes, now: Bytes, r: Outcome<nat>)
    requires length <= |was|
  {
    if length >= 0x1_0000_0000 then r == Throw(NarrowingError) && now == was
    else exists data :: Reads(content, offset, length, data) && r == Ok(|data|) && now == data + was[|data|..]
  }

  /** Operation `op`, which began when `before` requests had been sent, has come to its end, however it ended. */
  ghost predicate AtEnd(c: Client, before: nat, op: Operation, r: Outcome<Value>)
    reads c, c.tracker
  {
    c.Busy(op, FidOf(|c.runs|)) && c.phase == Done(r) && before == |c.Past()|
  }

  lemma {:induction false} AtEndIsARun(c: Client, before: nat, op: Operation, r: Outcome<Value>)
    requires AtEnd(c, before, op, r)
    ensures Follows(op, ROOT_FID, FidOf(|c.runs|), Walking, c.current, Done(r))
    ensures |c.trace| == before + |c.current|
    ensures forall k :: 0 <= k < |c.current| ==> c.current[k] == c.trace[before + k]
  {
    hide Client.Logged, Client.Settled, Client.Past, Follows;
  }

  /** A listing returns exactly the directory that is served, whatever else the server might have done. */
  lemma {:induction false} LastListingIsExact(c: Client, before: nat, path: Bytes, dir: seq<Stat>, r: Outcome<Value>)
    requires AtEnd(c, before, List(path), r) && DirectoryServed(c, before, path, dir)
    ensures r == Ok(Entries(dir))
  {
    hide AtEnd, ServesDirectory, EncStats, Follows;
    AtEndIsARun(c, before, List(path), r);
    ListingSucceeds(dir, path, ROOT_FID, FidOf(|c.runs|), c.current, r, before, c.server.limit);
  }

  /** A stat operation returns exactly the stat that is served. */
  lemma {:induction false} LastInformationIsExact(c: Client, before: nat, path: Bytes, stat: Stat, r: Outcome<Value>)
    requires AtEnd(c, before, Info(path), r) && StatServed(c, before, path, stat)
    ensures r == Ok(Information(stat))
  {
    hide AtEnd, ServesStat, Follows;
    var fid := FidOf(|c.runs|);
    AtEndIsARun(c, before, Info(path), r);
    EndsSoon(Info(path), ROOT_FID, fid, Walking, c.current, Done(r));
    InformationIsExact(stat, path, ROOT_FID, fid, c.current, r);
  }

  /** A file read delivers exactly the bytes of the file that is served. */
  lemma {:induction false} LastFileReadIsExact(c: Client, before: nat, path: Bytes, offset: uint64, length: uint64,
                                               content: Bytes, was: Bytes, now: Bytes, r: Outcome<Value>)
    requires AtEnd(c, before, Fetch(path, offset, length), r) && FileServed(c, before, path, content)
    requires length <= |was| && now == Overlay(was, length, FetchedData(c.current))
    ensures Delivered(content, offset, length, was, now, AsCount(r))
  {
    hide AtEnd, ServesFile, Follows, FetchedData;
    var fid := FidOf(|c.runs|);
    AtEndIsARun(c, before, Fetch(path, offset, length), r);
    EndsSoon(Fetch(path, offset, length), ROOT_FID, fid, Walking, c.current, Done(r));
    FileReadIsExact(content, path, offset, length, ROOT_FID, fid, c.current, r);
    var data := FetchedData(c.current);
    if length < 0x1_0000_0000 {
      assert |data| <= length && data[..|data|] == data;
    } else {
      OverlayNone(was, length);
    }
  }

  function Min(a: uint32, b: uint32): uint32 { if a < b then a else b }

  /** Parsing never ends in ConnectionClosed, so that outcome means no answer. */
  lemma {:induction false} NoneOtherThrowsClosed(answer: Option<Bytes>)
    ensures Received(answer) == Throw(ConnectionClosed) <==> answer == None
  {
    if answer.Some? {
      var r := ReadMessage(answer.value);
      assert r.Throw? ==> ParseError(r.error);
    }
  }
}
