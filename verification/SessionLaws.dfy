/** What a run of an operation asks, request by request, how it ends, and where its result comes from, whatever the
    server does; and for which directories a listing is always exact. */
module SessionLaws {
  import opened Wire
  import opened Replies
  import opened Requests
  import opened MessageReader
  import opened TextUtilities
  import opened Session

  /** The reply of the kind that the request asks for. */
  predicate Fits(q: Request, p: Payload) {
    || (q.TWalk? && p.RWalk?) || (q.TOpen? && p.ROpen?) || (q.TStat? && p.RStat?)
    || (q.TRead? && p.RRead?) || (q.TClunk? && p.RClunk?)
  }

  /** The entries of all directory reads, in order. */
  function EntriesRead(exs: seq<Exchange>): seq<Stat> {
    if exs == [] then []
    else EntriesRead(exs[..|exs| - 1]) + EntriesIn(exs[|exs| - 1])
  }

  function EntriesIn(e: Exchange): seq<Stat> {
    if e.request.TRead? && e.reply.Ok? && e.reply.value.RRead? && ReadStats(e.reply.value.data).Ok?
    then ReadStats(e.reply.value.data).value
    else []
  }

  predicate ReadNothing(e: Exchange) {
    e.request.TRead? && e.reply == Ok(RRead([]))
  }

  /** The phase an unfinished operation is in, told by the exchanges alone. */
  ghost predicate PhaseAfter(op: Operation, exs: seq<Exchange>, ph: Phase) {
    var n := |exs|;
    if n == 0 then ph == Walking
    else if op.Info? then
      if n == 1 then ph == Stating
      else n == 2 && exs[1].reply.Ok? && exs[1].reply.value.RStat?
           && ph == Clunking(Information(exs[1].reply.value.stat))
    else if n == 1 then ph == Opening && EntriesRead(exs) == []
    else if op.Fetch? then
      if n == 2 then op.length < 0x1_0000_0000 && ph == Fetching(op.offset, op.length)
      else n == 3 && exs[2].reply.Ok? && exs[2].reply.value.RRead?
           && ph == Clunking(Contents(exs[2].reply.value.data))
    else if n > 2 && ReadNothing(exs[n - 1]) then ph == Clunking(Entries(EntriesRead(exs)))
    else ph.Listing? && ph.rstats == EntriesRead(exs)
  }

  lemma {:induction false} PhaseStep(op: Operation, root: Fid, fid: Fid, exs: seq<Exchange>, ph: Phase, e: Exchange)
    requires PhaseAfter(op, exs, ph) && !ph.Done? && e.request == RequestOf(op, root, fid, ph)
    ensures var next := Advance(op, ph, e.reply); next.Done? || PhaseAfter(op, exs + [e], next)
    ensures !Advance(op, ph, e.reply).Done? ==> e.reply.Ok? && Fits(e.request, e.reply.value)
  {
    hide ReadStats, EntriesRead;
    EntriesReadSnoc(exs, e);
    if op.List? {
      ListPhaseStep(op, root, fid, exs, ph, e);
    }
  }

  lemma {:induction false} ListPhaseStep(op: Operation, root: Fid, fid: Fid, exs: seq<Exchange>, ph: Phase, e: Exchange)
    requires op.List? && PhaseAfter(op, exs, ph) && !ph.Done? && e.request == RequestOf(op, root, fid, ph)
    ensures var next := Advance(op, ph, e.reply); next.Done? || PhaseAfter(op, exs + [e], next)
  {
    hide ReadStats, EntriesRead;
    EntriesReadSnoc(exs, e);
    NoEntriesInNothing();
  }

  lemma {:induction false} EntriesReadSnoc(exs: seq<Exchange>, e: Exchange)
    ensures EntriesRead(exs + [e]) == EntriesRead(exs) + EntriesIn(e)
    ensures EntriesIn(e) == [] ==> EntriesRead(exs + [e]) == EntriesRead(exs)
    ensures EntriesRead([]) == []
  {
    assert (exs + [e])[..|exs|] == exs && (exs + [e])[|exs|] == e;
  }

  lemma {:induction false} NoEntriesInNothing()
    ensures ReadStats([]) == Ok([])
  {
  }

  lemma {:induction false} PhaseIs(op: Operation, root: Fid, fid: Fid, exs: seq<Exchange>, ph: Phase)
    requires Follows(op, root, fid, Walking, exs, ph) && !ph.Done?
    ensures PhaseAfter(op, exs, ph)
    ensures forall i :: 0 <= i < |exs| ==> exs[i].reply.Ok? && Fits(exs[i].request, exs[i].reply.value)
  {
    hide Advance, PhaseAfter, RequestOf, Fits;
    if exs == [] {
      assert PhaseAfter(op, [], Walking) by {
        PhaseAtStart(op);
      }
    } else {
      var n := |exs| - 1;
      var mid := FollowsUntil(op, root, fid, Walking, exs, ph, n);
      PhaseIs(op, root, fid, exs[..n], mid);
      PhaseStep(op, root, fid, exs[..n], mid, exs[n]);
      assert exs == exs[..n] + [exs[n]];
      assert forall i :: 0 <= i < n ==> exs[i] == exs[..n][i];
    }
  }

  lemma {:induction false} PhaseAtStart(op: Operation)
    ensures PhaseAfter(op, [], Walking)
  {
  }

  /** Request number `i` of a run, from the operation and the reply before it. */
  lemma {:induction false} RunAsksExactly(op: Operation, root: Fid, fid: Fid, exs: seq<Exchange>, end: Phase, i: nat)
    requires Follows(op, root, fid, Walking, exs, end) && i < |exs|
    ensures i == 0 ==> exs[i].request == TWalk(root, fid, Split(op.path))
    ensures i == 1 ==> exs[i].request == if op.Info? then TStat(fid) else TOpen(fid, 0)
    ensures i >= 2 && op.Info? ==> i == 2 && exs[i].request == TClunk(fid)
    ensures i >= 2 && op.Fetch? ==>
              if i == 2 then op.length < 0x1_0000_0000 && exs[i].request == TRead(fid, op.offset, op.length)
              else i == 3 && exs[i].request == TClunk(fid)
    ensures i >= 2 && op.List? ==>
              if i > 2 && exs[i - 1].request.TRead? && exs[i - 1].reply == Ok(RRead([]))
              then exs[i].request == TClunk(fid)
              else exs[i].request.TRead? && exs[i].request.fid == fid && exs[i].request.count == 65535
                   && exs[i].request.offset == BytesRead(exs[..i]) % 0x1_0000_0000_0000_0000
  {
    hide EntriesRead, Advance, Split, BytesRead, ReadReplySize;
    var mid := FollowsUntil(op, root, fid, Walking, exs, end, i);
    PhaseIs(op, root, fid, exs[..i], mid);
    if op.List? {
      OffsetsAddUp(op.path, root, fid, exs, end);
    }
  }

  lemma {:induction false} LastStep(op: Operation, root: Fid, fid: Fid, exs: seq<Exchange>, ph: Phase, e: Exchange,
                                    r: Outcome<Value>)
    requires PhaseAfter(op, exs, ph) && !ph.Done? && e.request == RequestOf(op, root, fid, ph)
    requires Advance(op, ph, e.reply) == Done(r)
    ensures e.reply.Throw? ==> r == Throw(e.reply.error)
    ensures e.reply.Ok? && e.reply.value.RError? ==> r == Throw(ErrorMessageReceived)
    ensures e.reply.Ok? && !e.reply.value.RError? && !Fits(e.request, e.reply.value) ==>
              r == Throw(UnexpectedMessageReceived)
    ensures e.reply.Ok? && Fits(e.request, e.reply.value) ==>
              || (e.request.TOpen? && op.Fetch? && op.length >= 0x1_0000_0000 && r == Throw(NarrowingError))
              || (e.request.TRead? && op.List? && ReadStats(e.reply.value.data).Throw?
                  && r == Throw(ReadStats(e.reply.value.data).error))
              || (e.request.TClunk? && r.Ok?)
  {
    hide ReadStats, EntriesRead;
    NoEntriesInNothing();
  }

  /** How a run ends. Every reply but the last is of the kind asked for. The last one decides: no reply, or one that
      does not parse; an error; another kind; an open for a length beyond 32 bits; directory data that does not parse;
      or the answer to the clunk, and only then the operation succeeds. */
  lemma {:induction false} RunEndsExactly(op: Operation, root: Fid, fid: Fid, exs: seq<Exchange>, r: Outcome<Value>)
    requires Follows(op, root, fid, Walking, exs, Done(r))
    ensures exs != []
    ensures forall i :: 0 <= i < |exs| - 1 ==> exs[i].reply.Ok? && Fits(exs[i].request, exs[i].reply.value)
    ensures var (q, reply) := (exs[|exs| - 1].request, exs[|exs| - 1].reply);
            && (reply.Throw? ==> r == Throw(reply.error))
            && (reply.Ok? && reply.value.RError? ==> r == Throw(ErrorMessageReceived))
            && (reply.Ok? && !reply.value.RError? && !Fits(q, reply.value) ==> r == Throw(UnexpectedMessageReceived))
            && (reply.Ok? && Fits(q, reply.value) ==>
                  || (q.TOpen? && op.Fetch? && op.length >= 0x1_0000_0000 && r == Throw(NarrowingError))
                  || (q.TRead? && op.List? && ReadStats(reply.value.data).Throw?
                      && r == Throw(ReadStats(reply.value.data).error))
                  || (q.TClunk? && r.Ok?))
  {
    hide ReadStats, EntriesRead, PhaseAfter, Advance, RequestOf;
    var n := |exs| - 1;
    var mid := FollowsUntil(op, root, fid, Walking, exs, Done(r), n);
    PhaseIs(op, root, fid, exs[..n], mid);
    LastStep(op, root, fid, exs[..n], mid, exs[n], r);
    assert forall i :: 0 <= i < n ==> exs[..n][i] == exs[i];
  }

  /** A result comes from the replies: the stat reply, the read reply, or the entries of all directory reads. */
  lemma {:induction false} ResultIsReplied(op: Operation, root: Fid, fid: Fid, exs: seq<Exchange>, v: Value)
    requires Follows(op, root, fid, Walking, exs, Done(Ok(v)))
    ensures op.Info? ==> |exs| == 3 && exs[1].reply.Ok? && exs[1].reply.value.RStat?
                         && v == Information(exs[1].reply.value.stat)
    ensures op.Fetch? ==> |exs| == 4 && exs[2].reply.Ok? && exs[2].reply.value.RRead?
                          && v == Contents(exs[2].reply.value.data)
    ensures op.List? ==> v == Entries(EntriesRead(exs))
  {
    hide ReadStats;
    var n := |exs| - 1;
    var mid := FollowsUntil(op, root, fid, Walking, exs, Done(Ok(v)), n);
    PhaseIs(op, root, fid, exs[..n], mid);
    if op.List? {
      assert EntriesIn(exs[n]) == [] && EntriesRead(exs[..n]) + [] == EntriesRead(exs[..n]);
    }
  }

  // ---------------------------------------------------------------- directories with long entries

  /** A server can read out the first `n` entries one by one, if they fit. */
  lemma {:induction false} EntriesOneByOne(path: Bytes, dir: seq<Stat>, n: nat, root: Fid, fid: Fid)
    returns (exs: seq<Exchange>)
    requires StatsOk(dir) && |EncStats(dir)| < 0x1_0000_0000_0000_0000 && n <= |dir| && EntriesFit(dir[..n])
    ensures |EncStats(dir[..n])| < 0x1_0000_0000_0000_0000
    ensures Follows(List(path), root, fid, Walking, exs, Listing(|EncStats(dir[..n])|, dir[..n]))
    ensures forall e :: e in exs ==> ServesDirectory(path, dir, e)
  {
    hide EncStat, EncStats, ReadStats;
    var op := List(path);
    if n == 0 {
      EncStatsEmpty();
      assert dir[..0] == [];
      exs := FirstTwo(path, dir, root, fid);
    } else {
      var k := n - 1;
      assert forall i :: 0 <= i < k ==> dir[..k][i] == dir[..n][i];
      exs := EntriesOneByOne(path, dir, k, root, fid);
      var offset := |EncStats(dir[..k])|;
      var data := EncStats(dir[k..n]);
      var e := Exchange(TRead(fid, offset, 65535), Ok(RRead(data)));
      OneEntry(dir, k);
      assert dir[..n][k] == dir[k];
      assert DirectoryRun(dir, offset, 65535, data, k, n);
      DirectoryReadContinues(dir, k, 65535, data, k, n);
      PrefixFits(dir, n);
      FollowsSnoc(op, root, fid, Walking, exs, Listing(offset, dir[..k]), e);
      exs := exs + [e];
    }
  }

  lemma {:induction false} OneEntry(dir: seq<Stat>, k: nat)
    requires k < |dir|
    ensures EncStats(dir[k..k + 1]) == EncStat(dir[k])
  {
    assert dir[k..k + 1] == [dir[k]] && [dir[k]][1..] == [];
    assert EncStats([dir[k]]) == EncStat(dir[k]) + EncStats([]);
  }

  lemma {:induction false} PrefixFits(dir: seq<Stat>, n: nat)
    requires n <= |dir|
    ensures |EncStats(dir[..n])| <= |EncStats(dir)|
  {
    assert dir[..n] + dir[n..] == dir;
    EncStatsAppend(dir[..n], dir[n..]);
  }

  lemma {:induction false} FirstTwo(path: Bytes, dir: seq<Stat>, root: Fid, fid: Fid) returns (exs: seq<Exchange>)
    ensures Follows(List(path), root, fid, Walking, exs, Listing(0, []))
    ensures forall e :: e in exs ==> ServesDirectory(path, dir, e)
  {
    var op := List(path);
    var walk := Exchange(TWalk(root, fid, Split(path)), Ok(RWalk([])));
    var open := Exchange(TOpen(fid, 0), Ok(ROpen(Qid(0, 0, 0), 0)));
    FollowsSnoc(op, root, fid, Walking, [], Walking, walk);
    FollowsSnoc(op, root, fid, Walking, [] + [walk], Opening, open);
    exs := [] + [walk] + [open];
  }

  /** At an entry longer than 65535 bytes a server has nothing it could send, and the listing stops there. */
  lemma {:induction false} LongEntryEndsListing(path: Bytes, dir: seq<Stat>, n: nat, root: Fid, fid: Fid)
    returns (exs: seq<Exchange>)
    requires StatsOk(dir) && |EncStats(dir)| < 0x1_0000_0000_0000_0000 && n < |dir|
    requires EntriesFit(dir[..n]) && |EncStat(dir[n])| > 65535
    ensures Follows(List(path), root, fid, Walking, exs, Done(Ok(Entries(dir[..n]))))
    ensures forall e :: e in exs ==> ServesDirectory(path, dir, e)
  {
    hide EncStat, EncStats, ReadStats;
    var op := List(path);
    exs := EntriesOneByOne(path, dir, n, root, fid);
    var offset := |EncStats(dir[..n])|;
    var nothing := Exchange(TRead(fid, offset, 65535), Ok(RRead([])));
    var clunk := Exchange(TClunk(fid), Ok(RClunk));
    EncStatsEmpty();
    assert dir[n..n] == [];
    assert DirectoryRun(dir, offset, 65535, [], n, n);
    FollowsSnoc(op, root, fid, Walking, exs, Listing(offset, dir[..n]), nothing);
    FollowsSnoc(op, root, fid, Walking, exs + [nothing], Clunking(Entries(dir[..n])), clunk);
    exs := exs + [nothing] + [clunk];
  }

  /** Whatever a server that serves `dir` does, a listing that ends returns `dir`. */
  ghost predicate AlwaysExact(path: Bytes, dir: seq<Stat>, root: Fid, fid: Fid) {
    forall exs, r ::
      Follows(List(path), root, fid, Walking, exs, Done(r)) && (forall e :: e in exs ==> ServesDirectory(path, dir, e))
      ==> r == Ok(Entries(dir))
  }

  /** The listing is always exact if and only if every entry fits the 65535 bytes asked for. */
  lemma {:induction false} ListingIsExactExactly(path: Bytes, dir: seq<Stat>, root: Fid, fid: Fid)
    requires StatsOk(dir) && |EncStats(dir)| < 0x1_0000_0000_0000_0000
    ensures AlwaysExact(path, dir, root, fid) <==> forall i :: 0 <= i < |dir| ==> |EncStat(dir[i])| <= 65535
  {
    hide Follows, ServesDirectory, EncStat, EncStats;
    if EntriesFit(dir) {
      forall exs, r | Follows(List(path), root, fid, Walking, exs, Done(r))
                      && (forall e :: e in exs ==> ServesDirectory(path, dir, e))
        ensures r == Ok(Entries(dir))
      {
        ListingIsExact(dir, path, root, fid, exs, Done(r));
      }
    } else {
      var n := FirstLong(dir, 0);
      var exs := LongEntryEndsListing(path, dir, n, root, fid);
      assert Entries(dir[..n]) != Entries(dir);
    }
  }

  lemma {:induction false} FirstLong(dir: seq<Stat>, from: nat) returns (n: nat)
    requires !EntriesFit(dir) && from <= |dir| && EntriesFit(dir[..from])
    ensures n < |dir| && EntriesFit(dir[..n]) && |EncStat(dir[n])| > 65535
    decreases |dir| - from
  {
    hide EncStat;
    assert dir[..|dir|] == dir;
    assert from < |dir|;
    if |EncStat(dir[from])| > 65535 {
      n := from;
    } else {
      assert forall i :: 0 <= i < from ==> dir[..from + 1][i] == dir[..from][i];
      assert dir[..from + 1][from] == dir[from];
      n := FirstLong(dir, from + 1);
    }
  }
}
