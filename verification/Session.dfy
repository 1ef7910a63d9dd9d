/** One client operation as a state machine over the replies it receives, the server's view of a
    conversation, and what holds of every run of the two together. */
module Session {
  import opened Wire
  import opened Replies
  import opened Requests
  import opened MessageReader
  import opened TextUtilities
  import MT = MessageTypes

  datatype Operation =
    | List(path: Bytes)
    | Info(path: Bytes)
    | Fetch(path: Bytes, offset: uint64, length: uint64)

  datatype Value = Entries(stats: seq<Stat>) | Information(stat: Stat) | Contents(data: Bytes)

  /** Where an operation stands: the reply it waits for next, or how it ended. */
  datatype Phase =
    | Walking
    | Opening
    | Stating
    | Listing(offset: uint64, rstats: seq<Stat>)
    | Fetching(at: uint64, count: uint32)
    | Clunking(value: Value)
    | Done(result: Outcome<Value>)

  /** A request and what the client received for it: the payload of the reply, or the exception that reading
      it ended in. */
  datatype Exchange = Exchange(request: Request, reply: Outcome<Payload>)

  const DIRECTORY_READ_SIZE: uint32 := 65535
  const READ_MODE: uint8 := 0

  // ---------------------------------------------------------------- the client's side

  function RequestOf(op: Operation, root: Fid, fid: Fid, ph: Phase): Request
    requires !ph.Done?
  {
    match ph
    case Walking => TWalk(root, fid, Split(op.path))
    case Opening => TOpen(fid, READ_MODE)
    case Stating => TStat(fid)
    case Listing(offset, _) => TRead(fid, offset, DIRECTORY_READ_SIZE)
    case Fetching(at, count) => TRead(fid, at, count)
    case Clunking(_) => TClunk(fid)
  }

  function Wanted(ph: Phase): uint8
    requires !ph.Done?
  {
    match ph
    case Walking => MT.R_WALK
    case Opening => MT.R_OPEN
    case Stating => MT.R_STAT
    case Listing(_, _) => MT.R_READ
    case Fetching(_, _) => MT.R_READ
    case Clunking(_) => MT.R_CLUNK
  }

  /** What every do... method makes of a reply. */
  function Await(want: uint8, reply: Outcome<Payload>): (r: Outcome<Payload>)
    ensures r.Ok? ==> Replies.TypeOf(r.value) == want
  {
    var p :- reply;
    if Replies.TypeOf(p) == want then Ok(p)
    else if p.RError? then Throw(ErrorMessageReceived)
    else Throw(UnexpectedMessageReceived)
  }

  function AfterOpen(op: Operation): Phase {
    match op
    case List(_) => Listing(0, [])
    case Info(_) => Stating
    case Fetch(_, offset, length) =>
      if length < 0x1_0000_0000 then Fetching(offset, length) else Done(Throw(NarrowingError))
  }

  function AfterDirectoryRead(offset: uint64, rstats: seq<Stat>, data: Bytes): (ph: Phase)
    ensures ph.Clunking? || ph.Listing? || (ph.Done? && ph.result.Throw?)
  {
    if data == [] then Clunking(Entries(rstats))
    else
      match StatsAfter(rstats, data)
      case Ok(stats) => Listing((offset + |data|) % 0x1_0000_0000_0000_0000, stats)
      case Throw(e) => Done(Throw(e))
  }

  function Advance(op: Operation, ph: Phase, reply: Outcome<Payload>): Phase
    requires !ph.Done?
  {
    match Await(Wanted(ph), reply)
    case Throw(e) => Done(Throw(e))
    case Ok(p) =>
      match ph
      case Walking => if op.Info? then Stating else Opening
      case Opening => AfterOpen(op)
      case Stating => Clunking(Information(p.stat))
      case Listing(offset, rstats) => AfterDirectoryRead(offset, rstats, p.data)
      case Fetching(_, _) => Clunking(Contents(p.data))
      case Clunking(value) => Done(Ok(value))
  }

  /** The exchanges `exs` take the operation from `ph` to `end`: each request is the one the phase sends. */
  ghost predicate Follows(op: Operation, root: Fid, fid: Fid, ph: Phase, exs: seq<Exchange>, end: Phase)
    decreases exs
  {
    if exs == [] then ph == end
    else
      && !ph.Done?
      && exs[0].request == RequestOf(op, root, fid, ph)
      && Follows(op, root, fid, Advance(op, ph, exs[0].reply), exs[1..], end)
  }

  lemma {:induction false} FollowsSnoc(op: Operation, root: Fid, fid: Fid, ph: Phase, exs: seq<Exchange>, end: Phase,
                                       e: Exchange)
    requires Follows(op, root, fid, ph, exs, end)
    requires !end.Done? && e.request == RequestOf(op, root, fid, end)
    ensures Follows(op, root, fid, ph, exs + [e], Advance(op, end, e.reply))
    decreases exs
  {
    if exs == [] {
      assert ([] + [e])[1..] == [];
    } else {
      assert (exs + [e])[1..] == exs[1..] + [e];
      FollowsSnoc(op, root, fid, Advance(op, ph, exs[0].reply), exs[1..], end, e);
    }
  }

  // ---------------------------------------------------------------- the server's side

  /** walk(5): newfid comes to life only when every name was walked. */
  predicate CompleteWalk(e: Exchange) {
    && e.request.TWalk?
    && e.reply.Ok? && e.reply.value.RWalk?
    && |e.reply.value.wqids| == |e.request.wnames|
  }

  /** The server's live fids after an exchange; clunk(5) retires the fid whatever it answers. */
  function Live(live: set<Fid>, e: Exchange): set<Fid> {
    if CompleteWalk(e) then live + {e.request.newfid}
    else if e.request.TClunk? && e.reply != Throw(ConnectionClosed) then live - {e.request.fid}
    else live
  }

  function LiveAfter(live: set<Fid>, exs: seq<Exchange>): set<Fid>
    decreases exs
  {
    if exs == [] then live else LiveAfter(Live(live, exs[0]), exs[1..])
  }

  /** A reply section 5 of the Plan 9 manual allows a server with these live fids: well formed, of the kind asked
      for or an error, and an error whenever the fid is not live. */
  ghost predicate Allowed(live: set<Fid>, e: Exchange) {
    && e.reply.Ok?
    && var p := e.reply.value;
       p.RError? ||
       match e.request
       case TWalk(fid, newfid, wnames) =>
         && p.RWalk? && fid in live && (newfid !in live || newfid == fid)
         && |p.wqids| <= |wnames| && (wnames != [] ==> p.wqids != [])
       case TOpen(fid, _) => p.ROpen? && fid in live
       case TRead(fid, _, _) => p.RRead? && fid in live
       case TStat(fid) => p.RStat? && fid in live
       case TClunk(fid) => p.RClunk? && fid in live
       case _ => true
  }

  ghost predicate Conforms(live: set<Fid>, exs: seq<Exchange>)
    decreases exs
  {
    exs == [] || (Allowed(live, exs[0]) && Conforms(Live(live, exs[0]), exs[1..]))
  }

  // ---------------------------------------------------------------- fid accounting of one operation

  predicate SendsClunk(exs: seq<Exchange>) {
    exists i :: 0 <= i < |exs| && exs[i].request.TClunk?
  }

  /** An exchange on which an operation gives up before its clunk: an error reply; an open, if the length to read
      then does not fit 32 bits; a directory read whose data is not a run of stats. */
  predicate Trips(op: Operation, e: Exchange) {
    && !e.request.TClunk? && e.reply.Ok?
    && (|| e.reply.value.RError?
        || (e.request.TOpen? && op.Fetch? && op.length >= 0x1_0000_0000)
        || (e.request.TRead? && op.List? && e.reply.value.RRead? && ReadStats(e.reply.value.data).Throw?))
  }

  predicate Tripped(op: Operation, exs: seq<Exchange>) {
    exists i :: 0 <= i < |exs| && Trips(op, exs[i])
  }

  /** The walk was complete, and a later exchange tripped the operation. */
  predicate Leaks(op: Operation, exs: seq<Exchange>) {
    exs != [] && CompleteWalk(exs[0]) && Tripped(op, exs)
  }

  lemma {:induction false} SendsClunkStep(exs: seq<Exchange>)
    requires exs != []
    ensures SendsClunk(exs) <==> exs[0].request.TClunk? || SendsClunk(exs[1..])
  {
    if SendsClunk(exs[1..]) {
      var i :| 0 <= i < |exs[1..]| && exs[1..][i].request.TClunk?;
      assert exs[i + 1].request.TClunk?;
    }
    if SendsClunk(exs) && !exs[0].request.TClunk? {
      var i :| 0 <= i < |exs| && exs[i].request.TClunk?;
      assert exs[1..][i - 1].request.TClunk?;
    }
  }

  lemma {:induction false} TrippedStep(op: Operation, exs: seq<Exchange>)
    requires exs != []
    ensures Tripped(op, exs) <==> Trips(op, exs[0]) || Tripped(op, exs[1..])
  {
    hide Trips;
    if Tripped(op, exs[1..]) {
      var i :| 0 <= i < |exs[1..]| && Trips(op, exs[1..][i]);
      assert Trips(op, exs[i + 1]);
    }
    if Tripped(op, exs) && !Trips(op, exs[0]) {
      var i :| 0 <= i < |exs| && Trips(op, exs[i]);
      assert Trips(op, exs[1..][i - 1]);
    }
  }

  /** The phases an operation can be in past its walk. */
  predicate Reachable(op: Operation, ph: Phase) {
    && (ph.Opening? ==> !op.Info?) && (ph.Stating? ==> op.Info?)
    && (ph.Listing? ==> op.List?) && (ph.Fetching? ==> op.Fetch?)
    && !ph.Walking?
  }

  lemma {:induction false} TripsExactly(op: Operation, root: Fid, fid: Fid, ph: Phase, e: Exchange, live: set<Fid>)
    requires Reachable(op, ph) && !ph.Done?
    requires e.request == RequestOf(op, root, fid, ph) && Allowed(live, e)
    ensures var next := Advance(op, ph, e.reply);
            Reachable(op, next) && (next.Done? <==> Trips(op, e) || e.request.TClunk?)
    ensures Trips(op, e) ==> !e.request.TClunk?
  {
    hide ReadStats;
    assert ReadStats([]).Ok? by {
      NoStats();
    }
  }

  lemma {:induction false} NoStats()
    ensures ReadStats([]) == Ok([])
  {
  }

  /** With a conforming server, the clunk is sent exactly if nothing trips the operation. */
  lemma {:induction false} ClunkSentExactly(op: Operation, root: Fid, fid: Fid, ph: Phase, exs: seq<Exchange>,
                                            r: Outcome<Value>, live: set<Fid>)
    requires Reachable(op, ph) && !ph.Done?
    requires Follows(op, root, fid, ph, exs, Done(r)) && Conforms(live, exs)
    ensures SendsClunk(exs) <==> !Tripped(op, exs)
    decreases exs
  {
    hide Trips, Advance;
    var next := Advance(op, ph, exs[0].reply);
    SendsClunkStep(exs);
    TrippedStep(op, exs);
    TripsExactly(op, root, fid, ph, exs[0], live);
    if next.Done? {
      assert exs[1..] == [];
    } else {
      ClunkSentExactly(op, root, fid, next, exs[1..], r, Live(live, exs[0]));
    }
  }

  /** Past the walk, the fid dies exactly if the clunk is sent. */
  lemma {:induction false} AccountingAfterWalk(op: Operation, root: Fid, fid: Fid, ph: Phase, exs: seq<Exchange>,
                                               r: Outcome<Value>, live: set<Fid>)
    requires !ph.Walking? && Follows(op, root, fid, ph, exs, Done(r)) && Conforms(live, exs)
    ensures LiveAfter(live, exs) == if SendsClunk(exs) then live - {fid} else live
    ensures r.Ok? && !ph.Done? ==> SendsClunk(exs)
    decreases exs
  {
    if exs != [] {
      SendsClunkStep(exs);
      var next := Advance(op, ph, exs[0].reply);
      AccountingAfterWalk(op, root, fid, next, exs[1..], r, Live(live, exs[0]));
    }
  }

  /** A fid the server does not know: a conforming server refuses its first use, and the operation ends. */
  lemma {:induction false} RefusedAtOnce(op: Operation, root: Fid, fid: Fid, ph: Phase, exs: seq<Exchange>,
                                         r: Outcome<Value>, live: set<Fid>)
    requires ph.Opening? || ph.Stating?
    requires Follows(op, root, fid, ph, exs, Done(r)) && Conforms(live, exs) && fid !in live
    ensures |exs| == 1 && !SendsClunk(exs) && r == Throw(ErrorMessageReceived) && LiveAfter(live, exs) == live
  {
    var e := exs[0];
    assert Allowed(live, e) && e.reply.value.RError?;
    assert Advance(op, ph, e.reply) == Done(Throw(ErrorMessageReceived));
    assert LiveAfter(live, exs) == LiveAfter(Live(live, e), exs[1..]);
  }

  /** The balance of one operation: nothing is gained or lost but the fid of an operation that was tripped after a
      complete walk. */
  lemma {:induction false} OperationAccounting(op: Operation, root: Fid, fid: Fid, exs: seq<Exchange>,
                                               r: Outcome<Value>, live: set<Fid>)
    requires Follows(op, root, fid, Walking, exs, Done(r)) && Conforms(live, exs)
    requires fid !in live
    ensures LiveAfter(live, exs) == if Leaks(op, exs) then live + {fid} else live
    ensures r.Ok? ==> SendsClunk(exs) && !Leaks(op, exs)
  {
    hide ReadStats;
    var e, rest := exs[0], exs[1..];
    var next := Advance(op, Walking, e.reply);
    SendsClunkStep(exs);
    TrippedStep(op, exs);
    if CompleteWalk(e) {
      AccountingAfterWalk(op, root, fid, next, rest, r, live + {fid});
      ClunkSentExactly(op, root, fid, next, rest, r, live + {fid});
      assert live + {fid} - {fid} == live;
    } else if next.Done? {
      assert rest == [];
    } else {
      RefusedAtOnce(op, root, fid, next, rest, r, live);
    }
  }

  /** Whatever the server does, an operation walks from the root once and clunks no fid but its own. */
  lemma {:induction false} TouchesOnlyItsFid(op: Operation, root: Fid, fid: Fid, ph: Phase, exs: seq<Exchange>,
                                             end: Phase)
    requires Follows(op, root, fid, ph, exs, end)
    ensures forall i :: 0 <= i < |exs| && exs[i].request.TClunk? ==> exs[i].request.fid == fid
    ensures forall i :: 0 <= i < |exs| && exs[i].request.TWalk? ==>
              i == 0 && ph.Walking? && exs[i].request.fid == root && exs[i].request.newfid == fid
    decreases exs
  {
    if exs != [] {
      var next := Advance(op, ph, exs[0].reply);
      TouchesOnlyItsFid(op, root, fid, next, exs[1..], end);
      assert forall i :: 1 <= i < |exs| ==> exs[i] == exs[1..][i - 1];
    }
  }

  // ---------------------------------------------------------------- whole runs

  /** One finished operation of a session, however it ended, if C++ defines how. */
  datatype Run = Run(op: Operation, fid: Fid, exs: seq<Exchange>, result: Outcome<Value>)

  const ROOT_FID: Fid := 1

  /** The fid the issuer hands to operation number `i`: 0 is skipped at the start and 1 is the root. */
  function FidOf(i: nat): Fid { (i + 2) % 0x1_0000_0000 }

  ghost predicate RunOk(run: Run, i: nat) {
    && run.fid == FidOf(i) && run.result != Throw(Undefined)
    && Follows(run.op, ROOT_FID, run.fid, Walking, run.exs, Done(run.result))
  }

  ghost predicate History(runs: seq<Run>) {
    forall i :: 0 <= i < |runs| ==> RunOk(runs[i], i)
  }

  function AllExchanges(runs: seq<Run>): seq<Exchange> {
    if runs == [] then [] else AllExchanges(runs[..|runs| - 1]) + runs[|runs| - 1].exs
  }

  function LeakedFids(runs: seq<Run>): set<Fid> {
    set i | 0 <= i < |runs| && Leaks(runs[i].op, runs[i].exs) :: runs[i].fid
  }

  lemma {:induction false} LiveAppend(live: set<Fid>, a: seq<Exchange>, b: seq<Exchange>)
    ensures LiveAfter(live, a + b) == LiveAfter(LiveAfter(live, a), b)
    ensures Conforms(live, a + b) <==> Conforms(live, a) && Conforms(LiveAfter(live, a), b)
    decreases a
  {
    if a == [] {
      assert a + b == b;
    } else {
      assert (a + b)[1..] == a[1..] + b;
      LiveAppend(Live(live, a[0]), a[1..], b);
    }
  }

  /** Every run of a session with a conforming server, failing operations included: the live fids are the root
      and one for each operation that was tripped after a complete walk. */
  lemma {:induction false} FidAccounting(runs: seq<Run>)
    requires History(runs) && |runs| + 1 < 0xFFFF_FFFF
    requires Conforms({ROOT_FID}, AllExchanges(runs))
    ensures LiveAfter({ROOT_FID}, AllExchanges(runs)) == {ROOT_FID} + LeakedFids(runs)
    ensures forall i :: 0 <= i < |runs| && runs[i].result.Ok? ==> !Leaks(runs[i].op, runs[i].exs)
  {
    hide Leaks, Follows;
    if runs != [] {
      var n := |runs| - 1;
      var before, run := runs[..n], runs[n];
      LiveAppend({ROOT_FID}, AllExchanges(before), run.exs);
      FidAccounting(before);
      var live := {ROOT_FID} + LeakedFids(before);
      assert RunOk(run, n);
      NewFidIsNotLive(runs);
      OperationAccounting(run.op, ROOT_FID, run.fid, run.exs, run.result, live);
      BalanceAdds(runs, LiveAfter(live, run.exs));
      assert forall i :: 0 <= i < n ==> runs[i] == before[i];
    }
  }

  lemma {:induction false} BalanceAdds(runs: seq<Run>, live: set<Fid>)
    requires runs != []
    requires var n := |runs| - 1;
             live == {ROOT_FID} + LeakedFids(runs[..n])
                     + (if Leaks(runs[n].op, runs[n].exs) then {runs[n].fid} else {})
    ensures live == {ROOT_FID} + LeakedFids(runs)
  {
    LeakedFidsSnoc(runs);
  }

  lemma {:induction false} NewFidIsNotLive(runs: seq<Run>)
    requires History(runs) && runs != [] && |runs| + 1 < 0xFFFF_FFFF
    ensures runs[|runs| - 1].fid !in {ROOT_FID} + LeakedFids(runs[..|runs| - 1])
  {
  }

  lemma {:induction false} LeakedFidsSnoc(runs: seq<Run>)
    requires runs != []
    ensures var n := |runs| - 1;
            LeakedFids(runs) == LeakedFids(runs[..n]) + (if Leaks(runs[n].op, runs[n].exs) then {runs[n].fid} else {})
  {
    var n := |runs| - 1;
    forall f | f in LeakedFids(runs)
      ensures f in LeakedFids(runs[..n]) || (Leaks(runs[n].op, runs[n].exs) && f == runs[n].fid)
    {
      var i :| 0 <= i < |runs| && Leaks(runs[i].op, runs[i].exs) && runs[i].fid == f;
      assert i < n ==> runs[..n][i] == runs[i];
    }
    forall f | f in LeakedFids(runs[..n])
      ensures f in LeakedFids(runs)
    {
      var i :| 0 <= i < n && Leaks(runs[..n][i].op, runs[..n][i].exs) && runs[..n][i].fid == f;
      assert runs[i] == runs[..n][i];
    }
  }

  /** A session gives every fid back if and only if no operation of it was tripped after a complete walk. */
  lemma {:induction false} FidsReturnExactly(runs: seq<Run>)
    requires History(runs) && |runs| + 1 < 0xFFFF_FFFF
    requires Conforms({ROOT_FID}, AllExchanges(runs))
    ensures LiveAfter({ROOT_FID}, AllExchanges(runs)) == {ROOT_FID} <==>
            forall i :: 0 <= i < |runs| ==> !Leaks(runs[i].op, runs[i].exs)
    ensures (forall i :: 0 <= i < |runs| ==> runs[i].result.Ok?) ==>
            LiveAfter({ROOT_FID}, AllExchanges(runs)) == {ROOT_FID}
  {
    hide Leaks, Follows, Conforms, LiveAfter, AllExchanges;
    FidAccounting(runs);
    forall i | 0 <= i < |runs| && Leaks(runs[i].op, runs[i].exs)
      ensures runs[i].fid in LeakedFids(runs) && runs[i].fid != ROOT_FID
    {
      assert RunOk(runs[i], i);
    }
  }

  /** A run that leaks: the root walked to itself, and then not opened. */
  function RefusedOpen(ename: Bytes): Run {
    Run(Fetch([], 0, 1), 2, [Exchange(TWalk(ROOT_FID, 2, []), Ok(RWalk([]))),
                             Exchange(TOpen(2, READ_MODE), Ok(RError(ename)))], Throw(ErrorMessageReceived))
  }

  lemma {:induction false} RefusedOpenIsARun(ename: Bytes)
    ensures RunOk(RefusedOpen(ename), 0)
  {
    hide AfterDirectoryRead;
    var run := RefusedOpen(ename);
    var walk, open := run.exs[0], run.exs[1];
    assert Split([]) == [];
    assert run.exs[1..] == [open] && [open][1..] == [];
    assert Advance(run.op, Walking, walk.reply) == Opening;
    assert Advance(run.op, Opening, open.reply) == Done(run.result);
    assert Follows(run.op, ROOT_FID, 2, Opening, [open], Done(run.result));
  }

  /** A file that the server refuses to open leaves its fid live. */
  lemma {:induction false} RefusedOpenLeaks(ename: Bytes)
    ensures var runs := [RefusedOpen(ename)];
            && History(runs) && Conforms({ROOT_FID}, AllExchanges(runs))
            && LiveAfter({ROOT_FID}, AllExchanges(runs)) == {ROOT_FID, 2}
  {
    hide RunOk;
    RefusedOpenIsARun(ename);
    var run := RefusedOpen(ename);
    var walk, open := run.exs[0], run.exs[1];
    assert run.exs[1..] == [open] && [open][1..] == [];
    assert [run][..0] == [];
    assert AllExchanges([run]) == [] + run.exs == run.exs;
    assert Live({ROOT_FID}, walk) == {ROOT_FID, 2} == Live({ROOT_FID, 2}, open);
    assert Conforms({ROOT_FID, 2}, [open]);
    assert LiveAfter({ROOT_FID, 2}, [open]) == {ROOT_FID, 2};
  }

  /** The fids walked to in a session are all different, and none is the root or NOFID. */
  lemma {:induction false} NewFidsNeverRepeat(runs: seq<Run>, i: nat, j: nat, e: Exchange, e': Exchange)
    requires History(runs) && |runs| + 1 < 0xFFFF_FFFF && i < |runs| && j < |runs|
    requires e in runs[i].exs && e.request.TWalk? && e' in runs[j].exs && e'.request.TWalk?
    ensures e.request.newfid != ROOT_FID && e.request.newfid != NOFID
    ensures i != j ==> e.request.newfid != e'.request.newfid
  {
    assert RunOk(runs[i], i) && RunOk(runs[j], j);
    TouchesOnlyItsFid(runs[i].op, ROOT_FID, runs[i].fid, Walking, runs[i].exs, Done(runs[i].result));
    TouchesOnlyItsFid(runs[j].op, ROOT_FID, runs[j].fid, Walking, runs[j].exs, Done(runs[j].result));
  }

  /** The number of the operation whose fid, after the issuer has wrapped, is the root's. */
  const ROOT_AGAIN: nat := 0xFFFF_FFFF

  predicate ClunksRoot(exs: seq<Exchange>) {
    exists i :: 0 <= i < |exs| && exs[i].request == TClunk(ROOT_FID)
  }

  lemma {:induction false} ClunksRootAppend(a: seq<Exchange>, b: seq<Exchange>)
    ensures ClunksRoot(a + b) <==> ClunksRoot(a) || ClunksRoot(b)
  {
    if ClunksRoot(a) {
      var i :| 0 <= i < |a| && a[i].request == TClunk(ROOT_FID);
      assert (a + b)[i].request == TClunk(ROOT_FID);
    }
    if ClunksRoot(b) {
      var i :| 0 <= i < |b| && b[i].request == TClunk(ROOT_FID);
      assert (a + b)[|a| + i].request == TClunk(ROOT_FID);
    }
  }

  /** An operation clunks the root if and only if it clunks at all and its fid is the root's. */
  lemma {:induction false} RunClunksRootExactly(run: Run, i: nat)
    requires RunOk(run, i)
    ensures ClunksRoot(run.exs) <==> i % 0x1_0000_0000 == ROOT_AGAIN && SendsClunk(run.exs)
  {
    TouchesOnlyItsFid(run.op, ROOT_FID, run.fid, Walking, run.exs, Done(run.result));
    if SendsClunk(run.exs) {
      var k :| 0 <= k < |run.exs| && run.exs[k].request.TClunk?;
      assert run.exs[k].request == TClunk(run.fid);
    }
  }

  /** Conforming server or not, a session clunks the root if and only if one of the operations whose fid wrapped
      around to the root's sends its clunk; so never within 2^32 - 1 operations. */
  lemma {:induction false} RootIsClunkedExactly(runs: seq<Run>)
    requires History(runs)
    ensures ClunksRoot(AllExchanges(runs)) <==>
            exists i :: 0 <= i < |runs| && i % 0x1_0000_0000 == ROOT_AGAIN && SendsClunk(runs[i].exs)
    ensures |runs| <= ROOT_AGAIN ==> !ClunksRoot(AllExchanges(runs))
  {
    hide SendsClunk;
    SomeRunClunksRoot(runs);
    forall i | 0 <= i < |runs|
      ensures ClunksRoot(runs[i].exs) <==> i % 0x1_0000_0000 == ROOT_AGAIN && SendsClunk(runs[i].exs)
    {
      RunClunksRootExactly(runs[i], i);
    }
  }

  lemma {:induction false} SomeRunClunksRoot(runs: seq<Run>)
    ensures ClunksRoot(AllExchanges(runs)) <==> exists i :: 0 <= i < |runs| && ClunksRoot(runs[i].exs)
  {
    if runs != [] {
      hide ClunksRoot;
      var n := |runs| - 1;
      SomeRunClunksRoot(runs[..n]);
      ClunksRootAppend(AllExchanges(runs[..n]), runs[n].exs);
      assert forall i :: 0 <= i < n ==> runs[..n][i] == runs[i];
    }
  }

  /** A stat operation on the root directory that succeeds. */
  function StatOfRoot(i: nat, stat: Stat): Run {
    var fid := FidOf(i);
    Run(Info([]), fid, [Exchange(TWalk(ROOT_FID, fid, []), Ok(RWalk([]))), Exchange(TStat(fid), Ok(RStat(stat))),
                        Exchange(TClunk(fid), Ok(RClunk))], Ok(Information(stat)))
  }

  function StatsOfRoot(n: nat, stat: Stat): seq<Run> {
    seq(n, i requires 0 <= i < n => StatOfRoot(i, stat))
  }

  lemma {:induction false} StatOfRootIsARun(i: nat, stat: Stat)
    ensures RunOk(StatOfRoot(i, stat), i)
  {
    hide AfterOpen, AfterDirectoryRead;
    var run := StatOfRoot(i, stat);
    var exs := run.exs;
    assert Split([]) == [];
    assert exs[1..] == [exs[1], exs[2]] && exs[1..][1..] == [exs[2]] && [exs[2]][1..] == [];
    assert Advance(run.op, Walking, exs[0].reply) == Stating;
    assert Advance(run.op, Stating, exs[1].reply) == Clunking(Information(stat));
    assert Advance(run.op, Clunking(Information(stat)), exs[2].reply) == Done(run.result);
    assert Follows(run.op, ROOT_FID, run.fid, Clunking(Information(stat)), [exs[2]], Done(run.result));
    assert Follows(run.op, ROOT_FID, run.fid, Stating, exs[1..], Done(run.result));
  }

  lemma {:induction false} StatOfRootConforms(i: nat, stat: Stat)
    requires i <= ROOT_AGAIN
    ensures var exs := StatOfRoot(i, stat).exs;
            && Conforms({ROOT_FID}, exs)
            && LiveAfter({ROOT_FID}, exs) == if i == ROOT_AGAIN then {} else {ROOT_FID}
  {
    var exs := StatOfRoot(i, stat).exs;
    var fid := FidOf(i);
    var live := {ROOT_FID} + {fid};
    assert exs[1..] == [exs[1], exs[2]] && exs[1..][1..] == [exs[2]] && [exs[2]][1..] == [];
    assert CompleteWalk(exs[0]) && !CompleteWalk(exs[1]) && !CompleteWalk(exs[2]);
    assert Live({ROOT_FID}, exs[0]) == live;
    assert Live(live, exs[1]) == live;
    assert Live(live, exs[2]) == live - {fid};
    assert Conforms(live, [exs[2]]) && LiveAfter(live, [exs[2]]) == Live(live, exs[2]);
    assert Conforms(live, exs[1..]) && LiveAfter(live, exs[1..]) == live - {fid};
  }

  lemma {:induction false} StatsOfRootConform(n: nat, stat: Stat)
    requires n <= ROOT_AGAIN + 1
    ensures var exs := AllExchanges(StatsOfRoot(n, stat));
            && Conforms({ROOT_FID}, exs)
            && LiveAfter({ROOT_FID}, exs) == if n == ROOT_AGAIN + 1 then {} else {ROOT_FID}
  {
    if n > 0 {
      var runs := StatsOfRoot(n, stat);
      assert runs[..n - 1] == StatsOfRoot(n - 1, stat);
      StatsOfRootConform(n - 1, stat);
      StatOfRootConforms(n - 1, stat);
      LiveAppend({ROOT_FID}, AllExchanges(runs[..n - 1]), runs[n - 1].exs);
    }
  }

  /** A session on a conforming server in which every operation succeeds and the last one, number 2^32 - 1, clunks
      the root. */
  lemma {:induction false} WrappedFidClunksRoot(stat: Stat)
    ensures var runs := StatsOfRoot(ROOT_AGAIN + 1, stat);
            && History(runs) && Conforms({ROOT_FID}, AllExchanges(runs))
            && ClunksRoot(AllExchanges(runs)) && LiveAfter({ROOT_FID}, AllExchanges(runs)) == {}
  {
    hide RunOk, AllExchanges, Conforms, LiveAfter, ClunksRoot;
    var runs := StatsOfRoot(ROOT_AGAIN + 1, stat);
    forall i | 0 <= i < |runs|
      ensures RunOk(runs[i], i)
    {
      StatOfRootIsARun(i, stat);
    }
    StatsOfRootConform(|runs|, stat);
    RootIsClunkedExactly(runs);
    assert runs[ROOT_AGAIN].exs[2].request.TClunk?;
    assert SendsClunk(runs[ROOT_AGAIN].exs);
  }

  // ---------------------------------------------------------------- tags

  /** The tag of request number `k` of a session; number 0 is TVersion. */
  function TagOf(k: nat): Tag {
    if k == 0 then NOTAG else k % 0x1_0000
  }

  // ---------------------------------------------------------------- reading a directory

  /** The run of whole entries dir[i..j] starts at byte `offset` and has at most `count` bytes. It is empty only at the
      end, or when the next entry is longer than that. */
  ghost predicate DirectoryRun(dir: seq<Stat>, offset: nat, count: nat, data: Bytes, i: nat, j: nat) {
    && i <= j <= |dir| && (i < |dir| && |EncStat(dir[i])| <= count ==> i < j)
    && offset == |EncStats(dir[..i])| && data == EncStats(dir[i..j]) && |data| <= count
  }

  /** A server that lets a reader through to `path` and there reads out `dir` as read(5) prescribes. */
  ghost predicate ServesDirectory(path: Bytes, dir: seq<Stat>, e: Exchange) {
    && e.reply.Ok?
    && var p := e.reply.value;
       match e.request
       case TWalk(_, _, wnames) => wnames == Split(path) ==> p.RWalk?
       case TOpen(_, mode) => mode == 0 ==> p.ROpen?
       case TRead(_, offset, count) =>
         p.RRead? && exists i: nat, j: nat :: DirectoryRun(dir, offset, count, p.data, i, j)
       case TClunk(_) => p.RClunk?
       case _ => false
  }

  /** Every entry fits the 65535 bytes that a directory read asks for. */
  ghost predicate EntriesFit(dir: seq<Stat>) {
    forall i :: 0 <= i < |dir| ==> |EncStat(dir[i])| <= 65535
  }

  lemma {:induction false} LongerPrefixIsLonger(dir: seq<Stat>, i: nat, j: nat)
    requires i < j <= |dir|
    ensures |EncStats(dir[..i])| < |EncStats(dir[..j])|
  {
    assert dir[..j] == dir[..i] + dir[i..j];
    EncStatsAppend(dir[..i], dir[i..j]);
    EncStatsNotEmpty(dir[i..j]);
  }

  lemma {:induction false} EncStatsNotEmpty(stats: seq<Stat>)
    requires stats != []
    ensures EncStats(stats) != []
  {
  }

  /** The offset of a read determines the entry it starts at. */
  lemma {:induction false} OffsetDeterminesEntry(dir: seq<Stat>, n: nat, i: nat)
    requires n <= |dir| && i <= |dir| && |EncStats(dir[..n])| == |EncStats(dir[..i])|
    ensures i == n
  {
    if i < n {
      LongerPrefixIsLonger(dir, i, n);
    } else if n < i {
      LongerPrefixIsLonger(dir, n, i);
    }
  }

  /** So a read at the end of dir[..n] returns the entries from n on. */
  lemma {:induction false} DirectoryReadContinues(dir: seq<Stat>, n: nat, count: nat, data: Bytes, i: nat, j: nat)
    requires StatsOk(dir) && n <= |dir| && DirectoryRun(dir, |EncStats(dir[..n])|, count, data, i, j)
    ensures i == n && |EncStats(dir[..n])| + |data| == |EncStats(dir[..j])|
    ensures StatsAfter(dir[..n], data) == Ok(dir[..j])
    ensures data == [] <==> n == j
    ensures n < |dir| && |EncStat(dir[n])| <= count ==> n < j
  {
    hide EncStat, EncStats, ReadStats;
    OffsetDeterminesEntry(dir, n, i);
    assert dir[..j] == dir[..n] + dir[n..j];
    EncStatsAppend(dir[..n], dir[n..j]);
    StatsRoundTrip(dir[n..j]);
    if n < j {
      EncStatsNotEmpty(dir[n..j]);
    } else {
      EncStatsEmpty();
    }
  }

  lemma {:induction false} EncStatsEmpty()
    ensures EncStats([]) == []
  {
  }

  /** One read: the reply holds entries n to j, and the machine has them. */
  lemma {:induction false} ListingStep(path: Bytes, dir: seq<Stat>, n: nat, op: Operation, root: Fid, fid: Fid,
                                       e: Exchange) returns (j: nat)
    requires StatsOk(dir) && EntriesFit(dir) && |EncStats(dir)| < 0x1_0000_0000_0000_0000 && n <= |dir|
    requires |EncStats(dir[..n])| <= |EncStats(dir)| && ServesDirectory(path, dir, e)
    requires e.request == RequestOf(op, root, fid, Listing(|EncStats(dir[..n])|, dir[..n]))
    ensures n <= j <= |dir| && (n < |dir| ==> n < j) && |EncStats(dir[..j])| <= |EncStats(dir)|
    ensures Advance(op, Listing(|EncStats(dir[..n])|, dir[..n]), e.reply) ==
            if n == |dir| then Clunking(Entries(dir)) else Listing(|EncStats(dir[..j])|, dir[..j])
  {
    hide EncStat, EncStats, ReadStats;
    var data := e.reply.value.data;
    var i: nat;
    i, j :| DirectoryRun(dir, |EncStats(dir[..n])|, 65535, data, i, j);
    DirectoryReadContinues(dir, n, 65535, data, i, j);
    assert dir[..|dir|] == dir;
    if j < |dir| {
      LongerPrefixIsLonger(dir, j, |dir|);
    }
  }

  lemma {:induction false} ListingFrom(path: Bytes, dir: seq<Stat>, n: nat, op: Operation, root: Fid, fid: Fid,
                                       exs: seq<Exchange>, end: Phase)
    requires StatsOk(dir) && EntriesFit(dir) && |EncStats(dir)| < 0x1_0000_0000_0000_0000 && n <= |dir|
    requires |EncStats(dir[..n])| <= |EncStats(dir)|
    requires Follows(op, root, fid, Listing(|EncStats(dir[..n])|, dir[..n]), exs, end)
    requires forall e :: e in exs ==> ServesDirectory(path, dir, e)
    ensures end.Done? ==> end.result == Ok(Entries(dir))
    ensures |exs| <= |dir| - n + (if end.Done? then 2 else 1)
    decreases |dir| - n
  {
    hide EncStat, EncStats, ReadStats, Advance;
    if exs != [] {
      var j := ListingStep(path, dir, n, op, root, fid, exs[0]);
      assert forall x :: x in exs[1..] ==> x in exs;
      if n < |dir| {
        ListingFrom(path, dir, j, op, root, fid, exs[1..], end);
      } else {
        ClunkEnds(op, root, fid, Entries(dir), exs[1..], end);
      }
    }
  }

  lemma {:induction false} ClunkEnds(op: Operation, root: Fid, fid: Fid, value: Value, exs: seq<Exchange>, end: Phase)
    requires Follows(op, root, fid, Clunking(value), exs, end)
    requires forall e :: e in exs ==> e.reply.Ok? && (e.request.TClunk? ==> e.reply.value.RClunk?)
    ensures |exs| <= 1 && (exs != [] ==> end.Done?) && (end.Done? ==> end.result == Ok(value))
  {
    if exs != [] {
      assert exs[0] in exs;
      assert Advance(op, Clunking(value), exs[0].reply) == Done(Ok(value));
    }
  }

  /** Listing is exact: the operation returns the server's entries, in order, each once, and it cannot go on
      for more than |dir| + 4 exchanges. */
  lemma {:induction false} ListingIsExact(dir: seq<Stat>, path: Bytes, root: Fid, fid: Fid, exs: seq<Exchange>,
                                          end: Phase)
    requires StatsOk(dir) && EntriesFit(dir) && |EncStats(dir)| < 0x1_0000_0000_0000_0000
    requires Follows(List(path), root, fid, Walking, exs, end)
    requires forall e :: e in exs ==> ServesDirectory(path, dir, e)
    ensures end.Done? ==> end.result == Ok(Entries(dir))
    ensures |exs| <= |dir| + (if end.Done? then 4 else 3)
  {
    var op := List(path);
    if |exs| >= 1 {
      assert exs[0] in exs && ServesDirectory(path, dir, exs[0]);
      assert Advance(op, Walking, exs[0].reply) == Opening;
    }
    if |exs| >= 2 {
      var rest := exs[1..][1..];
      assert exs[1] in exs && exs[1..][0] == exs[1] && ServesDirectory(path, dir, exs[1]);
      assert Advance(op, Opening, exs[1].reply) == Listing(0, []);
      assert rest == exs[2..] && dir[..0] == [];
      assert forall x :: x in rest ==> x in exs;
      ListingFrom(path, dir, 0, op, root, fid, rest, end);
    }
  }

  /** Total correctness: a server that reads out `dir` for as long as it answers, and answers |dir| + 4 more
      requests, gets the listing done. `before` counts the requests sent before the operation. */
  lemma {:induction false} ListingSucceeds(dir: seq<Stat>, path: Bytes, root: Fid, fid: Fid, exs: seq<Exchange>,
                                           r: Outcome<Value>, before: nat, limit: nat)
    requires StatsOk(dir) && EntriesFit(dir) && |EncStats(dir)| < 0x1_0000_0000_0000_0000
    requires Follows(List(path), root, fid, Walking, exs, Done(r))
    requires forall k :: 0 <= k < |exs| && before + k + 1 <= limit ==> ServesDirectory(path, dir, exs[k])
    requires before + |dir| + 4 <= limit
    ensures r == Ok(Entries(dir)) && |exs| <= |dir| + 4
  {
    if |exs| <= |dir| + 4 {
      ListingIsExact(dir, path, root, fid, exs, Done(r));
    } else {
      var n := |dir| + 4;
      var mid := FollowsUntil(List(path), root, fid, Walking, exs, Done(r), n);
      ListingIsExact(dir, path, root, fid, exs[..n], mid);
      assert false;
    }
  }

  function ReadReplySize(e: Exchange): nat {
    if e.request.TRead? && e.reply.Ok? && e.reply.value.RRead? then |e.reply.value.data| else 0
  }

  /** The bytes of all read replies. */
  function BytesRead(exs: seq<Exchange>): nat {
    if exs == [] then 0 else BytesRead(exs[..|exs| - 1]) + ReadReplySize(exs[|exs| - 1])
  }

  /** One step of the offset bookkeeping. */
  lemma {:induction false} OffsetStep(path: Bytes, root: Fid, fid: Fid, ph: Phase, e: Exchange, before: nat)
    requires ph.Walking? || ph.Opening? || ph.Listing? || ph.Clunking?
    requires e.request == RequestOf(List(path), root, fid, ph)
    requires ph.Listing? ==> ph.offset == before % 0x1_0000_0000_0000_0000
    requires ph.Opening? || ph.Walking? ==> before == 0
    ensures var next := Advance(List(path), ph, e.reply);
            var after := before + ReadReplySize(e);
            && !next.Stating? && !next.Fetching? && !next.Walking?
            && (next.Listing? ==> next.offset == after % 0x1_0000_0000_0000_0000)
            && (next.Opening? ==> after == 0)
  {
    hide ReadStats;
  }

  /** Whatever the server answers, each directory read asks for the offset where the bytes so far end. */
  lemma {:induction false} OffsetsAddUp(path: Bytes, root: Fid, fid: Fid, exs: seq<Exchange>, end: Phase)
    requires Follows(List(path), root, fid, Walking, exs, end)
    ensures end.Listing? ==> end.offset == BytesRead(exs) % 0x1_0000_0000_0000_0000
    ensures end.Opening? || end.Walking? ==> BytesRead(exs) == 0
    ensures !end.Stating? && !end.Fetching?
    ensures forall k :: 0 <= k < |exs| && exs[k].request.TRead? ==>
              exs[k].request.offset == BytesRead(exs[..k]) % 0x1_0000_0000_0000_0000
  {
    hide Advance;
    if exs != [] {
      var n := |exs| - 1;
      var mid := FollowsUntil(List(path), root, fid, Walking, exs, end, n);
      OffsetsAddUp(path, root, fid, exs[..n], mid);
      OffsetStep(path, root, fid, mid, exs[n], BytesRead(exs[..n]));
      assert forall k :: 0 <= k < n ==> exs[..n][k] == exs[k] && exs[..n][..k] == exs[..k];
    }
  }

  lemma {:induction false} FollowsUntil(op: Operation, root: Fid, fid: Fid, ph: Phase, exs: seq<Exchange>, end: Phase,
                                        n: nat) returns (mid: Phase)
    requires Follows(op, root, fid, ph, exs, end) && n < |exs|
    ensures Follows(op, root, fid, ph, exs[..n], mid)
    ensures !mid.Done? && exs[n].request == RequestOf(op, root, fid, mid)
    ensures n == |exs| - 1 ==> end == Advance(op, mid, exs[n].reply)
    decreases exs
  {
    if n == 0 {
      mid := ph;
    } else {
      assert exs[..n][1..] == exs[1..][..n - 1];
      mid := FollowsUntil(op, root, fid, Advance(op, ph, exs[0].reply), exs[1..], end, n - 1);
    }
  }

  // ---------------------------------------------------------------- operations without a loop

  /** The most exchanges an operation that does not list can still make. */
  function ExchangesLeft(op: Operation, ph: Phase): nat
    requires !op.List? && !ph.Listing?
  {
    match ph
    case Walking => if op.Info? then 3 else 4
    case Opening => 3
    case Stating => 2
    case Fetching(_, _) => 2
    case Clunking(_) => 1
    case Done(_) => 0
  }

  /** Whatever the server does, such an operation ends soon. */
  lemma {:induction false} EndsSoon(op: Operation, root: Fid, fid: Fid, ph: Phase, exs: seq<Exchange>, end: Phase)
    requires !op.List? && (ph.Walking? || Reachable(op, ph)) && Follows(op, root, fid, ph, exs, end)
    ensures |exs| <= ExchangesLeft(op, ph)
    decreases exs
  {
    if exs != [] {
      EndsSoon(op, root, fid, Advance(op, ph, exs[0].reply), exs[1..], end);
    }
  }

  // ---------------------------------------------------------------- reading a stat

  /** A server that lets a reader through to `path` and there reports `stat`. */
  predicate ServesStat(path: Bytes, stat: Stat, e: Exchange) {
    && e.reply.Ok?
    && var p := e.reply.value;
       match e.request
       case TWalk(_, _, wnames) => wnames == Split(path) ==> p.RWalk?
       case TStat(_) => p == RStat(stat)
       case TClunk(_) => p.RClunk?
       case _ => false
  }

  /** The stat operation returns the server's stat. */
  lemma {:induction false} InformationIsExact(stat: Stat, path: Bytes, root: Fid, fid: Fid, exs: seq<Exchange>,
                                              r: Outcome<Value>)
    requires Follows(Info(path), root, fid, Walking, exs, Done(r))
    requires forall e :: e in exs ==> ServesStat(path, stat, e)
    ensures r == Ok(Information(stat)) && |exs| == 3
  {
    var op := Info(path);
    assert exs[0] in exs && ServesStat(path, stat, exs[0]);
    var exs1 := exs[1..];
    assert Follows(op, root, fid, Stating, exs1, Done(r));
    assert exs1[0] in exs && ServesStat(path, stat, exs1[0]);
    var exs2 := exs1[1..];
    assert Follows(op, root, fid, Clunking(Information(stat)), exs2, Done(r));
    assert forall e :: e in exs2 ==> e in exs;
    ClunkEnds(op, root, fid, Information(stat), exs2, Done(r));
  }

  // ---------------------------------------------------------------- reading a file

  /** `data` answers a read of at most `count` bytes of `content` at `offset`: bytes of the file from there on, and
      none only past the end or when none are asked for. */
  ghost predicate Reads(content: Bytes, offset: nat, count: nat, data: Bytes) {
    if offset >= |content| || count == 0 then data == []
    else 0 < |data| <= count && offset + |data| <= |content| && data == content[offset..offset + |data|]
  }

  /** A server that lets a reader through to `path` and there reads out `content`. */
  ghost predicate ServesFile(path: Bytes, content: Bytes, e: Exchange) {
    && e.reply.Ok?
    && var p := e.reply.value;
       match e.request
       case TWalk(_, _, wnames) => wnames == Split(path) ==> p.RWalk?
       case TOpen(_, mode) => mode == 0 ==> p.ROpen?
       case TRead(_, offset, count) => p.RRead? && Reads(content, offset, count, p.data)
       case TClunk(_) => p.RClunk?
       case _ => false
  }

  /** The data the read reply of a file operation carried, if it came to that. */
  function FetchedData(exs: seq<Exchange>): Bytes {
    if |exs| >= 3 && exs[2].reply.Ok? && exs[2].reply.value.RRead? then exs[2].reply.value.data else []
  }

  lemma {:induction false} NothingFetched(exs: seq<Exchange>)
    requires |exs| < 3
    ensures FetchedData(exs) == []
  {
  }

  lemma {:induction false} Fetched(exs: seq<Exchange>, reply: Outcome<Payload>)
    requires |exs| == 3 && exs[2].reply == reply
    ensures var r := Await(MT.R_READ, reply); FetchedData(exs) == if r.Ok? then r.value.data else []
  {
  }

  /** A file read returns the file's bytes, those that its read reply carried, unless the length asked for does not
      fit 32 bits. */
  lemma {:induction false} FileReadIsExact(content: Bytes, path: Bytes, offset: uint64, length: uint64, root: Fid,
                                           fid: Fid, exs: seq<Exchange>, r: Outcome<Value>)
    requires Follows(Fetch(path, offset, length), root, fid, Walking, exs, Done(r))
    requires forall e :: e in exs ==> ServesFile(path, content, e)
    ensures length < 0x1_0000_0000 ==> r == Ok(Contents(FetchedData(exs)))
                                       && Reads(content, offset, length, FetchedData(exs))
    ensures length >= 0x1_0000_0000 ==> r == Throw(NarrowingError) && FetchedData(exs) == []
                                        && (Leaks(Fetch(path, offset, length), exs) <==> CompleteWalk(exs[0]))
  {
    hide ReadStats;
    var op := Fetch(path, offset, length);
    assert exs[0] in exs && ServesFile(path, content, exs[0]);
    assert Advance(op, Walking, exs[0].reply) == Opening;
    var exs1 := exs[1..];
    assert Follows(op, root, fid, Opening, exs1, Done(r));
    assert exs1[0] in exs && ServesFile(path, content, exs1[0]);
    assert Advance(op, Opening, exs1[0].reply) == AfterOpen(op);
    var exs2 := exs1[1..];
    assert Follows(op, root, fid, AfterOpen(op), exs2, Done(r));
    if length < 0x1_0000_0000 {
      assert exs2[0] in exs && ServesFile(path, content, exs2[0]);
      var data := exs2[0].reply.value.data;
      assert Advance(op, Fetching(offset, length), exs2[0].reply) == Clunking(Contents(data));
      assert forall x :: x in exs2[1..] ==> x in exs;
      ClunkEnds(op, root, fid, Contents(data), exs2[1..], Done(r));
      assert exs2[0] == exs[2];
    } else {
      assert exs2 == [] && exs == [exs[0], exs[1]];
      assert Trips(op, exs[1]);
    }
  }
}
