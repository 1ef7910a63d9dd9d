/** The message type octets of the protocol. */
module MessageTypes {
  import opened Wire

  const T_VERSION: uint8 := 100
  const R_VERSION: uint8 := 101
  const T_AUTH: uint8 := 102
  const R_AUTH: uint8 := 103
  const T_ATTACH: uint8 := 104
  const R_ATTACH: uint8 := 105
  const R_ERROR: uint8 := 107
  const T_FLUSH: uint8 := 108
  const R_FLUSH: uint8 := 109
  const T_WALK: uint8 := 110
  const R_WALK: uint8 := 111
  const T_OPEN: uint8 := 112
  const R_OPEN: uint8 := 113
  const T_CREATE: uint8 := 114
  const R_CREATE: uint8 := 115
  const T_READ: uint8 := 116
  const R_READ: uint8 := 117
  const T_WRITE: uint8 := 118
  const R_WRITE: uint8 := 119
  const T_CLUNK: uint8 := 120
  const R_CLUNK: uint8 := 121
  const T_REMOVE: uint8 := 122
  const R_REMOVE: uint8 := 123
  const T_STAT: uint8 := 124
  const R_STAT: uint8 := 125
  const T_WSTAT: uint8 := 126
  const R_WSTAT: uint8 := 127
}

/** Server-to-client messages: what the parser computes, and the reference encoding it inverts. */
module Replies {
  import opened Bits
  import opened Wire
  import MT = MessageTypes

  datatype Payload =
    | RVersion(msize: uint32, version: Bytes)
    | RAuth(aqid: Qid)
    | RError(ename: Bytes)
    | RFlush
    | RAttach(qid: Qid)
    | RWalk(wqids: seq<Qid>)
    | ROpen(qid: Qid, iounit: uint32)
    | RCreate(qid: Qid, iounit: uint32)
    | RRead(data: Bytes)
    | RWrite(count: uint32)
    | RClunk
    | RRemove
    | RStat(stat: Stat)
    | RWstat

  function TypeOf(p: Payload): uint8 {
    match p
    case RVersion(_, _) => MT.R_VERSION
    case RAuth(_) => MT.R_AUTH
    case RError(_) => MT.R_ERROR
    case RFlush => MT.R_FLUSH
    case RAttach(_) => MT.R_ATTACH
    case RWalk(_) => MT.R_WALK
    case ROpen(_, _) => MT.R_OPEN
    case RCreate(_, _) => MT.R_CREATE
    case RRead(_) => MT.R_READ
    case RWrite(_) => MT.R_WRITE
    case RClunk => MT.R_CLUNK
    case RRemove => MT.R_REMOVE
    case RStat(_) => MT.R_STAT
    case RWstat => MT.R_WSTAT
  }

  predicate ParseError(e: Error) {
    e == BufferOverrun || e == Undefined || e == UnknownMessageTag
  }

  function ReadRVersion(b: Bytes): (r: Outcome<Payload>)
    ensures r.Throw? ==> ParseError(r.error)
  {
    var (msize, b1) :- ReadInt(4, b);
    var (version, b2) :- ReadStr(b1);
    Ok(RVersion(msize, version))
  }

  function ReadRWalk(b: Bytes): (r: Outcome<Payload>)
    ensures r.Throw? ==> ParseError(r.error)
  {
    var (nwqid, b1) :- ReadInt(2, b);
    var (wqids, b2) :- ReadQids(nwqid, b1);
    Ok(RWalk(wqids))
  }

  /** The shared body of ROpen and RCreate. */
  function ReadQidIounit(b: Bytes): (r: Outcome<(Qid, uint32)>)
    ensures r.Ok? <==> |b| >= 17
    ensures r.Throw? ==> r.error == BufferOverrun
  {
    var (qid, b1) :- ReadQid(b);
    var (iounit, b2) :- ReadInt(4, b1);
    Ok((qid, iounit))
  }

  function ReadRRead(b: Bytes): (r: Outcome<Payload>)
    ensures r.Throw? ==> ParseError(r.error)
  {
    var (count, b1) :- ReadInt(4, b);
    if |b1| < count then Throw(Undefined) else Ok(RRead(b1[..count]))
  }

  function ReadRStat(b: Bytes): (r: Outcome<Payload>)
    ensures r.Throw? ==> ParseError(r.error)
  {
    var (size, b1) :- ReadInt(2, b);
    if |b1| < size then Throw(Undefined)
    else
      var (stat, b2) :- ReadRawStat(b1[..size]);
      Ok(RStat(stat))
  }

  function ReadPayload(typ: uint8, b: Bytes): (r: Outcome<Payload>)
    ensures r.Throw? ==> ParseError(r.error)
  {
    if typ == MT.R_VERSION then ReadRVersion(b)
    else if typ == MT.R_AUTH then
      var (aqid, b1) :- ReadQid(b);
      Ok(RAuth(aqid))
    else if typ == MT.R_ERROR then
      var (ename, b1) :- ReadStr(b);
      Ok(RError(ename))
    else if typ == MT.R_FLUSH then Ok(RFlush)
    else if typ == MT.R_ATTACH then
      var (qid, b1) :- ReadQid(b);
      Ok(RAttach(qid))
    else if typ == MT.R_WALK then ReadRWalk(b)
    else if typ == MT.R_OPEN then
      var (qid, iounit) :- ReadQidIounit(b);
      Ok(ROpen(qid, iounit))
    else if typ == MT.R_CREATE then
      var (qid, iounit) :- ReadQidIounit(b);
      Ok(RCreate(qid, iounit))
    else if typ == MT.R_READ then ReadRRead(b)
    else if typ == MT.R_WRITE then
      var (count, b1) :- ReadInt(4, b);
      Ok(RWrite(count))
    else if typ == MT.R_CLUNK then Ok(RClunk)
    else if typ == MT.R_REMOVE then Ok(RRemove)
    else if typ == MT.R_STAT then ReadRStat(b)
    else if typ == MT.R_WSTAT then Ok(RWstat)
    else Throw(UnknownMessageTag)
  }

  function ReadMessage(b: Bytes): (r: Outcome<(Tag, Payload)>)
    ensures r.Throw? ==> ParseError(r.error)
  {
    var (length, b1) :- ReadInt(4, b);
    var (typ, b2) :- ReadInt(1, b1);
    var (tag, b3) :- ReadInt(2, b2);
    var payload :- ReadPayload(typ, b3);
    Ok((tag, payload))
  }

  // ---------------------------------------------------------------- reference encoding

  /** The counts and sizes of the payload fit the fields that carry them. */
  predicate PayloadOk(p: Payload) {
    match p
    case RVersion(_, version) => StrOk(version)
    case RError(ename) => StrOk(ename)
    case RWalk(wqids) => |wqids| < 0x1_0000
    case RRead(data) => 7 + 4 + |data| < 0x1_0000_0000
    case RStat(stat) => 2 + StatSize(stat) < 0x1_0000
    case _ => true
  }

  function PutPayload(p: Payload): Bytes
    requires PayloadOk(p)
  {
    match p
    case RVersion(msize, version) => PutInt(4, msize, PutStr(version, []))
    case RAuth(aqid) => PutQid(aqid, [])
    case RError(ename) => PutStr(ename, [])
    case RAttach(qid) => PutQid(qid, [])
    case RWalk(wqids) => PutInt(2, |wqids|, PutQids(wqids, []))
    case ROpen(qid, iounit) => PutQid(qid, PutInt(4, iounit, []))
    case RCreate(qid, iounit) => PutQid(qid, PutInt(4, iounit, []))
    case RRead(data) => PutInt(4, |data|, data)
    case RWrite(count) => PutInt(4, count, [])
    case RStat(stat) => PutInt(2, 2 + StatSize(stat), EncStat(stat))
    case _ => []
  }

  /** A frame starts with its own length, in four bytes. */
  predicate Framed(f: Bytes) {
    |f| >= 4 && LeValue(f[..4]) == |f|
  }

  /** size[4] type[1] tag[2] and the payload, as intro(5) lays a message out. */
  function EncodeReply(tag: Tag, p: Payload): (f: Bytes)
    requires PayloadOk(p)
    ensures Framed(f)
  {
    var body := PutPayload(p);
    PutInt(4, 7 + |body|, PutInt(1, TypeOf(p), PutInt(2, tag, body)))
  }

  /** Every reply the protocol can express is understood as what it says. */
  lemma {:induction false} ReplyRoundTrip(tag: Tag, p: Payload)
    requires PayloadOk(p)
    ensures ReadMessage(EncodeReply(tag, p)) == Ok((tag, p))
  {
    PayloadRoundTrip(p);
  }

  lemma {:induction false} PayloadRoundTrip(p: Payload)
    requires PayloadOk(p)
    ensures ReadPayload(TypeOf(p), PutPayload(p)) == Ok(p)
  {
    hide ReadRVersion, ReadRWalk, ReadRRead, ReadRStat, ReadQid, ReadQidIounit, ReadStr, ReadInt;
    hide PutInt, PutStr, PutQid, PutQids, EncStat;
    match p
    case RVersion(msize, version) => RVersionRoundTrip(msize, version);
    case RAuth(aqid) => QidRoundTrip(aqid);
    case RAttach(qid) => QidRoundTrip(qid);
    case RWalk(wqids) => RWalkRoundTrip(wqids);
    case ROpen(qid, iounit) => QidIounitRoundTrip(qid, iounit);
    case RCreate(qid, iounit) => QidIounitRoundTrip(qid, iounit);
    case RRead(data) => RReadRoundTrip(data);
    case RStat(stat) => RStatRoundTrip(stat);
    case _ =>
  }

  lemma {:induction false} RVersionRoundTrip(msize: uint32, version: Bytes)
    requires StrOk(version)
    ensures ReadRVersion(PutInt(4, msize, PutStr(version, []))) == Ok(RVersion(msize, version))
  {
  }

  lemma {:induction false} RReadRoundTrip(data: Bytes)
    requires |data| < 0x1_0000_0000
    ensures ReadRRead(PutInt(4, |data|, data)) == Ok(RRead(data))
  {
    assert data[..|data|] == data;
  }

  lemma {:induction false} QidRoundTrip(qid: Qid)
    ensures ReadQid(PutQid(qid, [])) == Ok((qid, []))
  {
  }

  lemma {:induction false} RWalkRoundTrip(wqids: seq<Qid>)
    requires |wqids| < 0x1_0000
    ensures ReadRWalk(PutInt(2, |wqids|, PutQids(wqids, []))) == Ok(RWalk(wqids))
  {
    QidsRoundTrip(wqids, []);
  }

  lemma {:induction false} QidIounitRoundTrip(qid: Qid, iounit: uint32)
    ensures ReadQidIounit(PutQid(qid, PutInt(4, iounit, []))) == Ok((qid, iounit))
  {
  }

  lemma {:induction false} RStatRoundTrip(stat: Stat)
    requires 2 + StatSize(stat) < 0x1_0000
    ensures ReadRStat(PutInt(2, 2 + StatSize(stat), EncStat(stat))) == Ok(RStat(stat))
  {
    StatRoundTrip(stat, []);
    StatSizeIsExact(stat);
    assert EncStat(stat) + [] == EncStat(stat);
    CountedStat(EncStat(stat), stat);
  }

  lemma {:induction false} CountedStat(raw: Bytes, stat: Stat)
    requires |raw| < 0x1_0000 && ReadRawStat(raw) == Ok((stat, []))
    ensures ReadRStat(PutInt(2, |raw|, raw)) == Ok(RStat(stat))
  {
    assert raw[..|raw|] == raw;
  }

  // ---------------------------------------------------------------- what the parsers demand

  /** The types whose parser checks every access. */
  predicate Checked(typ: uint8) {
    typ in {MT.R_VERSION, MT.R_AUTH, MT.R_ERROR, MT.R_ATTACH, MT.R_WALK, MT.R_OPEN, MT.R_CREATE, MT.R_WRITE}
  }

  predicate Bodyless(typ: uint8) {
    typ in {MT.R_FLUSH, MT.R_CLUNK, MT.R_REMOVE, MT.R_WSTAT}
  }

  /** The bytes each format demands, counts read from the bytes themselves. */
  predicate LongEnough(typ: uint8, b: Bytes)
    requires Checked(typ)
  {
    if typ == MT.R_VERSION then |b| >= 6 && |b| >= 6 + LeValue(b[4..6])
    else if typ == MT.R_ERROR then |b| >= 2 && |b| >= 2 + LeValue(b[..2])
    else if typ == MT.R_WALK then |b| >= 2 && |b| >= 2 + 13 * LeValue(b[..2])
    else if typ == MT.R_WRITE then |b| >= 4
    else if typ == MT.R_AUTH || typ == MT.R_ATTACH then |b| >= 13
    else |b| >= 17
  }

  /** The checked parsers are total on arbitrary bytes: they succeed exactly when the bytes are long enough
      and otherwise end in BufferOverrun. */
  lemma {:induction false} CheckedParsersAreTotal(typ: uint8, b: Bytes)
    requires Checked(typ)
    ensures ReadPayload(typ, b).Ok? <==> LongEnough(typ, b)
    ensures !LongEnough(typ, b) ==> ReadPayload(typ, b) == Throw(BufferOverrun)
  {
    if typ == MT.R_VERSION && |b| >= 6 {
      assert b[4..][..2] == b[4..6];
    }
  }

  /** The unchecked views: parsing leaves the defined behaviour of the source exactly when a declared count
      exceeds the bytes present. */
  lemma {:induction false} UndefinedExactly(typ: uint8, b: Bytes)
    ensures ReadPayload(typ, b) == Throw(Undefined) <==>
            || (typ == MT.R_READ && |b| >= 4 && |b| < 4 + LeValue(b[..4]))
            || (typ == MT.R_STAT && |b| >= 2 && |b| < 2 + LeValue(b[..2]))
            || (typ == MT.R_STAT && |b| >= 4 && 2 <= LeValue(b[..2]) <= |b| - 2 &&
                LeValue(b[..2]) < 2 + LeValue(b[2..4]))
    ensures ReadPayload(typ, b) == Throw(UnknownMessageTag) <==>
            !Checked(typ) && !Bodyless(typ) && typ != MT.R_READ && typ != MT.R_STAT
  {
    if typ == MT.R_STAT && |b| >= 2 {
      var size := LeValue(b[..2]);
      if 2 <= size <= |b| - 2 {
        assert b[2..][..size][..2] == b[2..4];
      }
    }
  }

  /** A parser that succeeds has looked at a prefix only: bytes appended to its input change nothing. */
  lemma {:induction false} PrefixDetermined(typ: uint8, b: Bytes, x: Bytes)
    requires ReadPayload(typ, b).Ok?
    ensures ReadPayload(typ, b + x) == ReadPayload(typ, b)
  {
    if typ == MT.R_VERSION || typ == MT.R_ERROR || typ == MT.R_WALK {
      CountedPrefixDetermined(typ, b, x);
    } else if typ == MT.R_AUTH || typ == MT.R_ATTACH {
      ExtendQid(b, x);
    } else if typ == MT.R_OPEN || typ == MT.R_CREATE {
      ExtendQid(b, x);
      ExtendInt(4, ReadQid(b).value.1, x);
    } else if typ == MT.R_WRITE {
      ExtendInt(4, b, x);
    } else if typ == MT.R_READ || typ == MT.R_STAT {
      UncheckedPrefixDetermined(typ, b, x);
    }
  }

  lemma {:induction false} CountedPrefixDetermined(typ: uint8, b: Bytes, x: Bytes)
    requires typ in {MT.R_VERSION, MT.R_ERROR, MT.R_WALK} && ReadPayload(typ, b).Ok?
    ensures ReadPayload(typ, b + x) == ReadPayload(typ, b)
  {
    if typ == MT.R_VERSION {
      ExtendInt(4, b, x);
      ExtendStr(ReadInt(4, b).value.1, x);
    } else if typ == MT.R_ERROR {
      ExtendStr(b, x);
    } else {
      ExtendInt(2, b, x);
      var (n, b1) := ReadInt(2, b).value;
      ExtendQids(n, b1, x);
    }
  }

  lemma {:induction false} UncheckedPrefixDetermined(typ: uint8, b: Bytes, x: Bytes)
    requires typ in {MT.R_READ, MT.R_STAT} && ReadPayload(typ, b).Ok?
    ensures ReadPayload(typ, b + x) == ReadPayload(typ, b)
  {
    var w := if typ == MT.R_READ then 4 else 2;
    ExtendInt(w, b, x);
    var (n, b1) := ReadInt(w, b).value;
    assert (b1 + x)[..n] == b1[..n];
  }

  lemma {:induction false} ExtendInt(w: nat, b: Bytes, x: Bytes)
    requires ReadInt(w, b).Ok?
    ensures ReadInt(w, b + x) == Ok((ReadInt(w, b).value.0, ReadInt(w, b).value.1 + x))
  {
    assert (b + x)[..w] == b[..w] && (b + x)[w..] == b[w..] + x;
  }

  lemma {:induction false} ExtendStr(b: Bytes, x: Bytes)
    requires ReadStr(b).Ok?
    ensures ReadStr(b + x) == Ok((ReadStr(b).value.0, ReadStr(b).value.1 + x))
  {
    ExtendInt(2, b, x);
    var (n, b1) := ReadInt(2, b).value;
    assert (b1 + x)[..n] == b1[..n] && (b1 + x)[n..] == b1[n..] + x;
  }

  lemma {:induction false} ExtendQid(b: Bytes, x: Bytes)
    requires ReadQid(b).Ok?
    ensures ReadQid(b + x) == Ok((ReadQid(b).value.0, ReadQid(b).value.1 + x))
  {
    var b1 := ReadInt(1, b).value.1;
    var b2 := ReadInt(4, b1).value.1;
    ExtendInt(1, b, x);
    ExtendInt(4, b1, x);
    ExtendInt(8, b2, x);
  }

  lemma {:induction false} ExtendQids(n: nat, b: Bytes, x: Bytes)
    requires ReadQids(n, b).Ok?
    ensures ReadQids(n, b + x) == Ok((ReadQids(n, b).value.0, ReadQids(n, b).value.1 + x))
  {
    if n > 0 {
      ExtendQid(b, x);
      ExtendQids(n - 1, ReadQid(b).value.1, x);
    }
  }
}
