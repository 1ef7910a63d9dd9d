/** The parser as it runs: each method takes the view it was handed and returns what it read together with
    the view that remains. */
module MessageReader {
  import opened Bits
  import opened Wire
  import opened Replies
  import MT = MessageTypes

  /** A method's result and remaining view are what the specification reads. */
  ghost predicate Agrees<T>(r: Outcome<T>, rest: Bytes, spec: Outcome<(T, Bytes)>) {
    match spec
    case Ok((v, k)) => r == Ok(v) && rest == k
    case Throw(e) => r == Throw(e)
  }

  method CheckForBufferOverrun(buffer: Bytes, count: nat) returns (r: Outcome<()>)
    ensures r == if |buffer| < count then Throw(BufferOverrun) else Ok(())
  {
    if |buffer| < count {
      return Throw(BufferOverrun);
    }
    return Ok(());
  }

  /** Or-and-shift accumulation in a `width`-byte unsigned type; it yields the base-256 sum of the bytes. */
  method ParseInteger(width: nat, buffer: Bytes) returns (r: Outcome<nat>, rest: Bytes)
    ensures Agrees(r, rest, ReadInt(width, buffer))
  {
    rest := buffer;
    var ok :- CheckForBufferOverrun(buffer, width);
    var value: nat := 0;
    for i := 0 to width
      invariant value == LeValue(buffer[..i]) < Pow256(i)
    {
      OrShiftedByte(value, buffer[i], i, width);
      LeValueSnoc(buffer[..i], buffer[i]);
      LeValueBound(buffer[..i + 1]);
      assert buffer[..i + 1] == buffer[..i] + [buffer[i]];
      value := Or(value, ShiftLeft(buffer[i], 8 * i, 8 * width));
    }
    return Ok(value), buffer[width..];
  }

  /** One turn of the loop, in arithmetic: the shifted byte keeps all its bits and meets no bit already set. */
  lemma {:induction false} OrShiftedByte(value: nat, b: byte, i: nat, width: nat)
    requires value < Pow256(i) && i < width
    ensures Or(value, ShiftLeft(b, 8 * i, 8 * width)) == value + b * Pow256(i)
  {
    Pow2Bytes(i);
    Pow2Bytes(width);
    var shifted := b * Pow256(i);
    ShiftedByteFits(b, i, width);
    ModUnique(shifted, Pow256(width), 0, shifted);
    OrIsAdd(value, b, 8 * i);
  }

  lemma {:induction false} ShiftedByteFits(b: byte, i: nat, width: nat)
    requires i < width
    ensures 0 <= b * Pow256(i) < Pow256(width)
  {
    MulMonotone(b, 255, Pow256(i));
    Pow256Grows(i + 1, width);
  }

  /** No check: a count beyond the view leaves the defined behaviour of the source. */
  method ExtractDataView(count: nat, buffer: Bytes) returns (r: Outcome<Bytes>, rest: Bytes)
    ensures Agrees(r, rest, if |buffer| < count then Throw(Undefined) else Ok((buffer[..count], buffer[count..])))
  {
    rest := buffer;
    if |buffer| < count {
      return Throw(Undefined), rest;
    }
    return Ok(buffer[..count]), buffer[count..];
  }

  method ParseString(buffer: Bytes) returns (r: Outcome<Bytes>, rest: Bytes)
    ensures Agrees(r, rest, ReadStr(buffer))
  {
    rest := buffer;
    var size, b1 :- ParseInteger(2, buffer);
    var ok :- CheckForBufferOverrun(b1, size);
    r, rest := ExtractDataView(size, b1);
  }

  method ParseQid(buffer: Bytes) returns (r: Outcome<Qid>, rest: Bytes)
    ensures Agrees(r, rest, ReadQid(buffer))
  {
    rest := buffer;
    var typ, b1 :- ParseInteger(1, buffer);
    var vers, b2 :- ParseInteger(4, b1);
    var path, b3 :- ParseInteger(8, b2);
    return Ok(Qid(typ, vers, path)), b3;
  }

  method ParseQids(nwqid: uint16, buffer: Bytes) returns (r: Outcome<seq<Qid>>, rest: Bytes)
    ensures Agrees(r, rest, ReadQids(nwqid, buffer))
  {
    var wqids: seq<Qid> := [];
    rest := buffer;
    PrependNothing(ReadQids(nwqid, buffer));
    for i := 0 to nwqid
      invariant |wqids| == i
      invariant ReadQids(nwqid, buffer) == Prepend(wqids, ReadQids(nwqid - i, rest))
    {
      ghost var before := wqids;
      var q, b1 :- ParseQid(rest);
      wqids, rest := wqids + [q], b1;
      PrependTwice(before, q, ReadQids(nwqid - i - 1, b1));
    }
    assert wqids + [] == wqids;
    return Ok(wqids), rest;
  }

  /** The width of the `i`-th integer of a stat. */
  function StatWidth(i: nat): nat {
    if i == 0 then 2 else if i == 2 then 1 else if i == 4 || i == 8 then 8 else 4
  }

  lemma {:induction false} StatKindAt(i: nat)
    requires i < 9
    ensures STAT_KINDS[i] == KInt(StatWidth(i))
  {
  }

  lemma {:induction false} IntStep(all: Bytes, done: seq<Field>, b: Bytes)
    requires ReadSoFar(STAT_KINDS, all, done, b) && |done| < 9
    ensures var r := ReadInt(StatWidth(|done|), b);
            if r.Ok? then ReadSoFar(STAT_KINDS, all, done + [FInt(StatWidth(|done|), r.value.0)], r.value.1)
            else ReadFields(STAT_KINDS, all) == Throw(r.error)
  {
    hide ReadSoFar, ReadFields;
    StatKindAt(|done|);
    ReadStep(STAT_KINDS, all, done, b);
  }

  /** One integer field of a record whose earlier fields are `done`. */
  method ParseIntField(width: nat, ghost all: Bytes, ghost done: seq<Field>, buffer: Bytes)
    returns (r: Outcome<nat>, rest: Bytes, ghost done': seq<Field>)
    requires ReadSoFar(STAT_KINDS, all, done, buffer) && |done| < 9 && width == StatWidth(|done|)
    ensures r.Ok? ==> r.value < Pow256(width) && done' == done + [FInt(width, r.value)]
    ensures r.Ok? ==> ReadSoFar(STAT_KINDS, all, done', rest)
    ensures r.Throw? ==> ReadFields(STAT_KINDS, all) == Throw(r.error)
  {
    hide ReadSoFar, ReadFields;
    IntStep(all, done, buffer);
    r, rest := ParseInteger(width, buffer);
    done' := if r.Ok? then done + [FInt(width, r.value)] else done;
  }

  /** One string field of such a record. */
  method ParseStrField(ghost all: Bytes, ghost done: seq<Field>, buffer: Bytes)
    returns (r: Outcome<Bytes>, rest: Bytes, ghost done': seq<Field>)
    requires ReadSoFar(STAT_KINDS, all, done, buffer) && 9 <= |done| < 13
    ensures r.Ok? ==> StrOk(r.value) && done' == done + [FStr(r.value)] && ReadSoFar(STAT_KINDS, all, done', rest)
    ensures r.Throw? ==> ReadFields(STAT_KINDS, all) == Throw(r.error)
  {
    ReadStep(STAT_KINDS, all, done, buffer);
    r, rest := ParseString(buffer);
    done' := if r.Ok? then done + [FStr(r.value)] else done;
  }

  lemma {:induction false} StatBegins(all: Bytes)
    ensures ReadSoFar(STAT_KINDS, all, [], all)
  {
    assert STAT_KINDS[0..] == STAT_KINDS;
    PrependNothing(ReadFields(STAT_KINDS, all));
  }

  lemma {:induction false} StatEnds(all: Bytes, done: seq<Field>, rest: Bytes, stat: Stat)
    requires ReadSoFar(STAT_KINDS, all, done, rest)
    requires done == WithStatHead([], stat) + [FStr(stat.name)] + [FStr(stat.uid)] + [FStr(stat.gid)]
                     + [FStr(stat.muid)]
    requires StrOk(stat.name) && StrOk(stat.uid) && StrOk(stat.gid) && StrOk(stat.muid)
    ensures ReadStatBody(all) == Ok((stat, rest))
  {
    StatHeadInSteps([], stat);
    assert done == StatFields(stat);
    assert STAT_KINDS[13..] == [] && done + [] == done;
    StatFieldsMatch(stat);
  }

  method ParseQidFields(ghost all: Bytes, ghost done: seq<Field>, buffer: Bytes)
    returns (r: Outcome<Qid>, rest: Bytes, ghost done': seq<Field>)
    requires ReadSoFar(STAT_KINDS, all, done, buffer) && |done| == 2
    ensures r.Ok? ==> var q := r.value;
                      done' == WithQid(done, q) && ReadSoFar(STAT_KINDS, all, done', rest)
    ensures r.Throw? ==> ReadFields(STAT_KINDS, all) == Throw(r.error)
  {
    hide ReadSoFar, ReadFields, Match;
    rest, done' := buffer, done;
    var typ, vers, path;
    typ, rest, done' :- ParseIntField(1, all, done', rest);
    vers, rest, done' :- ParseIntField(4, all, done', rest);
    path, rest, done' :- ParseIntField(8, all, done', rest);
    r := Ok(Qid(typ, vers, path));
  }

  /** The integers of a stat, from its first byte. */
  method ParseStatHead(buffer: Bytes) returns (r: Outcome<Stat>, rest: Bytes, ghost done: seq<Field>)
    ensures r.Ok? ==> done == WithStatHead([], r.value) && ReadSoFar(STAT_KINDS, buffer, done, rest)
    ensures r.Throw? ==> ReadFields(STAT_KINDS, buffer) == Throw(r.error)
  {
    hide ReadSoFar, ReadFields, Match;
    done, rest := [], buffer;
    StatBegins(buffer);
    var typ, dev, qid, mode, atime, mtime, length;
    typ, rest, done :- ParseIntField(2, buffer, done, rest);
    dev, rest, done :- ParseIntField(4, buffer, done, rest);
    qid, rest, done :- ParseQidFields(buffer, done, rest);
    mode, rest, done :- ParseIntField(4, buffer, done, rest);
    atime, rest, done :- ParseIntField(4, buffer, done, rest);
    mtime, rest, done :- ParseIntField(4, buffer, done, rest);
    length, rest, done :- ParseIntField(8, buffer, done, rest);
    r := Ok(Stat(typ, dev, qid, mode, atime, mtime, length, [], [], [], []));
  }

  method ParseStatFields(buffer: Bytes) returns (r: Outcome<Stat>, rest: Bytes)
    ensures Agrees(r, rest, ReadStatBody(buffer))
  {
    hide ReadSoFar, ReadFields, Match;
    rest := buffer;
    ghost var done;
    var stat, name, uid, gid, muid;
    stat, rest, done :- ParseStatHead(rest);
    name, rest, done :- ParseStrField(buffer, done, rest);
    uid, rest, done :- ParseStrField(buffer, done, rest);
    gid, rest, done :- ParseStrField(buffer, done, rest);
    muid, rest, done :- ParseStrField(buffer, done, rest);
    stat := stat.(name := name, uid := uid, gid := gid, muid := muid);
    StatEnds(buffer, done, rest, stat);
    r := Ok(stat);
  }

  method ParseRawRStat(buffer: Bytes) returns (r: Outcome<Stat>, rest: Bytes)
    ensures Agrees(r, rest, ReadRawStat(buffer))
  {
    rest := buffer;
    var size, b1 :- ParseInteger(2, buffer);
    var statBuffer, b2 :- ExtractDataView(size, b1);
    var stat, unused :- ParseStatFields(statBuffer);
    return Ok(stat), b2;
  }

  // ---------------------------------------------------------------- payloads

  method ParseRVersion(buffer: Bytes) returns (r: Outcome<Payload>)
    ensures r == ReadRVersion(buffer)
  {
    var msize, b1 :- ParseInteger(4, buffer);
    var version, b2 :- ParseString(b1);
    return Ok(RVersion(msize, version));
  }

  method ParseRWalk(buffer: Bytes) returns (r: Outcome<Payload>)
    ensures r == ReadRWalk(buffer)
  {
    var nwqid, b1 :- ParseInteger(2, buffer);
    var wqids, b2 :- ParseQids(nwqid, b1);
    return Ok(RWalk(wqids));
  }

  method ParseQidIounit(buffer: Bytes) returns (r: Outcome<(Qid, uint32)>)
    ensures r == ReadQidIounit(buffer)
  {
    var qid, b1 :- ParseQid(buffer);
    var iounit, b2 :- ParseInteger(4, b1);
    return Ok((qid, iounit));
  }

  method ParseRRead(buffer: Bytes) returns (r: Outcome<Payload>)
    ensures r == ReadRRead(buffer)
  {
    var count, b1 :- ParseInteger(4, buffer);
    var data, b2 :- ExtractDataView(count, b1);
    return Ok(RRead(data));
  }

  method ParseRStat(buffer: Bytes) returns (r: Outcome<Payload>)
    ensures r == ReadRStat(buffer)
  {
    var size, b1 :- ParseInteger(2, buffer);
    var rstatBuffer, b2 :- ExtractDataView(size, b1);
    var stat, b3 :- ParseRawRStat(rstatBuffer);
    return Ok(RStat(stat));
  }

  method ParseMessagePayload(typ: uint8, buffer: Bytes) returns (r: Outcome<Payload>)
    ensures r == ReadPayload(typ, buffer)
  {
    if typ == MT.R_VERSION {
      r := ParseRVersion(buffer);
    } else if typ == MT.R_AUTH {
      var aqid, b1 :- ParseQid(buffer);
      r := Ok(RAuth(aqid));
    } else if typ == MT.R_ERROR {
      var ename, b1 :- ParseString(buffer);
      r := Ok(RError(ename));
    } else if typ == MT.R_FLUSH {
      r := Ok(RFlush);
    } else if typ == MT.R_ATTACH {
      var qid, b1 :- ParseQid(buffer);
      r := Ok(RAttach(qid));
    } else if typ == MT.R_WALK {
      r := ParseRWalk(buffer);
    } else if typ == MT.R_OPEN {
      var body :- ParseQidIounit(buffer);
      r := Ok(ROpen(body.0, body.1));
    } else if typ == MT.R_CREATE {
      var body :- ParseQidIounit(buffer);
      r := Ok(RCreate(body.0, body.1));
    } else if typ == MT.R_READ {
      r := ParseRRead(buffer);
    } else if typ == MT.R_WRITE {
      var count, b1 :- ParseInteger(4, buffer);
      r := Ok(RWrite(count));
    } else if typ == MT.R_CLUNK {
      r := Ok(RClunk);
    } else if typ == MT.R_REMOVE {
      r := Ok(RRemove);
    } else if typ == MT.R_STAT {
      r := ParseRStat(buffer);
    } else if typ == MT.R_WSTAT {
      r := Ok(RWstat);
    } else {
      r := Throw(UnknownMessageTag);
    }
  }

  method ParseMessage(buffer: Bytes) returns (r: Outcome<(Tag, Payload)>)
    ensures r == ReadMessage(buffer)
  {
    var length, b1 :- ParseInteger(4, buffer);
    var typ, b2 :- ParseInteger(1, b1);
    var tag, b3 :- ParseInteger(2, b2);
    var payload :- ParseMessagePayload(typ, b3);
    return Ok((tag, payload));
  }

  method ParseMessageLength(buf: Bytes) returns (length: uint32)
    requires |buf| == 4
    ensures length == LeValue(buf)
  {
    var r, rest := ParseInteger(4, buf);
    assert buf[..4] == buf;
    length := r.value;
  }

  // ---------------------------------------------------------------- runs of stats

  /** The entries of a directory read: stat records back to back until the data ends. */
  function ReadStats(data: Bytes): Outcome<seq<Stat>>
    decreases |data|
  {
    if data == [] then Ok([])
    else
      var (stat, rest) :- ReadRawStat(data);
      var stats :- ReadStats(rest);
      Ok([stat] + stats)
  }

  function EncStats(stats: seq<Stat>): Bytes {
    if stats == [] then [] else EncStat(stats[0]) + EncStats(stats[1..])
  }

  ghost predicate StatsOk(stats: seq<Stat>) {
    forall i :: 0 <= i < |stats| ==> StatOk(stats[i])
  }

  /** A run of stats decodes to that run and no other. */
  lemma {:induction false} StatsRoundTrip(stats: seq<Stat>)
    requires StatsOk(stats)
    ensures ReadStats(EncStats(stats)) == Ok(stats)
  {
    if stats != [] {
      StatRoundTrip(stats[0], EncStats(stats[1..]));
      StatsRoundTrip(stats[1..]);
      assert [stats[0]] + stats[1..] == stats;
    }
  }

  /** A run of stats with something behind it that is no stat does not parse, for the reason that does not. */
  lemma {:induction false} StatsFailWhereOneFails(stats: seq<Stat>, rest: Bytes)
    requires StatsOk(stats) && rest != [] && ReadRawStat(rest).Throw?
    ensures ReadStats(EncStats(stats) + rest) == Throw(ReadRawStat(rest).error)
  {
    hide ReadRawStat;
    if stats == [] {
      assert [] + rest == rest;
    } else {
      var more := EncStats(stats[1..]) + rest;
      Associative(EncStat(stats[0]), EncStats(stats[1..]), rest);
      StatRoundTrip(stats[0], more);
      StatsFailWhereOneFails(stats[1..], rest);
    }
  }

  lemma {:induction false} EncStatsAppend(a: seq<Stat>, b: seq<Stat>)
    ensures EncStats(a + b) == EncStats(a) + EncStats(b)
  {
    hide EncStat;
    if a == [] {
      assert a + b == b;
    } else {
      EncStatsAppend(a[1..], b);
      assert (a + b)[1..] == a[1..] + b;
      Associative(EncStat(a[0]), EncStats(a[1..]), EncStats(b));
    }
  }

  /** The entries so far and those in `data`. */
  function StatsAfter(done: seq<Stat>, data: Bytes): Outcome<seq<Stat>> {
    var stats :- ReadStats(data);
    Ok(done + stats)
  }

  lemma {:induction false} StatsAfterOne(done: seq<Stat>, data: Bytes, stat: Stat, rest: Bytes)
    requires data != [] && ReadRawStat(data) == Ok((stat, rest))
    ensures StatsAfter(done, data) == StatsAfter(done + [stat], rest)
  {
    var r := ReadStats(rest);
    if r.Ok? {
      assert done + ([stat] + r.value) == done + [stat] + r.value;
    }
  }

  /** Appends the entries in `data` to `rstats`. Each turn consumes 2 + size bytes. */
  method ReadRStatsFromData(data: Bytes, rstats: seq<Stat>) returns (r: Outcome<seq<Stat>>)
    ensures r == StatsAfter(rstats, data)
  {
    var buffer, stats := data, rstats;
    while |buffer| != 0
      invariant StatsAfter(rstats, data) == StatsAfter(stats, buffer)
      decreases |buffer|
    {
      var stat, rest :- ParseRawRStat(buffer);
      assert |buffer| == |rest| + 2 + LeValue(buffer[..2]);
      StatsAfterOne(stats, buffer, stat, rest);
      buffer, stats := rest, stats + [stat];
    }
    assert stats + [] == stats;
    return Ok(stats);
  }
}
