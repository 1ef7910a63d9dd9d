/** Client-to-server messages: the reference encoding of intro(5) and its decoder, and the fields the
    builder writes, with the strings it drops and the counts it narrows. */
module Requests {
  import opened Wrappers
  import opened Bits
  import opened Wire
  import MT = MessageTypes

  datatype Request =
    | TVersion(msize: uint32, version: Bytes)
    | TAuth(afid: Fid, uname: Bytes, aname: Bytes)
    | TFlush(oldtag: Tag)
    | TAttach(fid: Fid, afid: Fid, uname: Bytes, aname: Bytes)
    | TWalk(fid: Fid, newfid: Fid, wnames: seq<Bytes>)
    | TOpen(fid: Fid, mode: uint8)
    | TCreate(fid: Fid, name: Bytes, perm: uint32, mode: uint8)
    | TRead(fid: Fid, offset: uint64, count: uint32)
    | TWrite(fid: Fid, offset: uint64, data: Bytes)
    | TClunk(fid: Fid)
    | TRemove(fid: Fid)
    | TStat(fid: Fid)
    | TWstat(fid: Fid, stat: Stat)

  function TypeOf(m: Request): uint8 {
    match m
    case TVersion(_, _) => MT.T_VERSION
    case TAuth(_, _, _) => MT.T_AUTH
    case TFlush(_) => MT.T_FLUSH
    case TAttach(_, _, _, _) => MT.T_ATTACH
    case TWalk(_, _, _) => MT.T_WALK
    case TOpen(_, _) => MT.T_OPEN
    case TCreate(_, _, _, _) => MT.T_CREATE
    case TRead(_, _, _) => MT.T_READ
    case TWrite(_, _, _) => MT.T_WRITE
    case TClunk(_) => MT.T_CLUNK
    case TRemove(_) => MT.T_REMOVE
    case TStat(_) => MT.T_STAT
    case TWstat(_, _) => MT.T_WSTAT
  }

  // ---------------------------------------------------------------- reference encoding

  /** The fields every message of its type has. */
  function HeadFields(m: Request): seq<Field> {
    match m
    case TVersion(msize, version) => [FInt(4, msize), FStr(version)]
    case TAuth(afid, uname, aname) => [FInt(4, afid), FStr(uname), FStr(aname)]
    case TFlush(oldtag) => [FInt(2, oldtag)]
    case TAttach(fid, afid, uname, aname) => [FInt(4, fid), FInt(4, afid), FStr(uname), FStr(aname)]
    case TWalk(fid, newfid, wnames) => [FInt(4, fid), FInt(4, newfid), FInt(2, |wnames|)]
    case TOpen(fid, mode) => [FInt(4, fid), FInt(1, mode)]
    case TCreate(fid, name, perm, mode) => [FInt(4, fid), FStr(name), FInt(4, perm), FInt(1, mode)]
    case TRead(fid, offset, count) => [FInt(4, fid), FInt(8, offset), FInt(4, count)]
    case TWrite(fid, offset, data) => [FInt(4, fid), FInt(8, offset), FInt(4, |data|)]
    case TClunk(fid) => [FInt(4, fid)]
    case TRemove(fid) => [FInt(4, fid)]
    case TStat(fid) => [FInt(4, fid)]
    case TWstat(fid, stat) => [FInt(4, fid), FInt(2, StatSize(stat))]
  }

  /** What follows them, announced by a count or size among them. */
  function TailFields(m: Request): seq<Field> {
    match m
    case TWalk(_, _, wnames) => NameFields(wnames)
    case TWrite(_, _, data) => [FRaw(data)]
    case TWstat(_, stat) => StatFields(stat)
    case _ => []
  }

  function NameFields(wnames: seq<Bytes>): (fs: seq<Field>)
    ensures |fs| == |wnames|
  {
    seq(|wnames|, i requires 0 <= i < |wnames| => FStr(wnames[i]))
  }

  function Preamble(tag: Tag, m: Request): seq<Field> {
    [FInt(1, TypeOf(m)), FInt(2, tag)]
  }

  /** A frame: the total length, itself included, in four bytes, then the fields. */
  function Frame(fs: seq<Field>): Bytes {
    LeBytes(4 + |EncFields(fs)|, 4) + EncFields(fs)
  }

  function Encode(tag: Tag, m: Request): Bytes {
    Frame(Preamble(tag, m) + HeadFields(m) + TailFields(m))
  }

  /** Every string, count and size of the message fits the field that carries it. */
  predicate Encodable(m: Request) {
    match m
    case TVersion(_, version) => StrOk(version)
    case TAuth(_, uname, aname) => StrOk(uname) && StrOk(aname)
    case TAttach(_, _, uname, aname) => StrOk(uname) && StrOk(aname)
    case TWalk(_, _, wnames) => |wnames| < 0x1_0000 && forall s :: s in wnames ==> StrOk(s)
    case TCreate(_, name, _, _) => StrOk(name)
    case TWrite(_, _, data) => |data| < 0x1_0000_0000
    case TWstat(_, stat) => StatOk(stat)
    case _ => true
  }

  // ---------------------------------------------------------------- reference decoder

  function HeadKinds(typ: uint8): Option<seq<Kind>> {
    if typ == MT.T_VERSION then Some([KInt(4), KStr])
    else if typ == MT.T_AUTH then Some([KInt(4), KStr, KStr])
    else if typ == MT.T_FLUSH then Some([KInt(2)])
    else if typ == MT.T_ATTACH then Some([KInt(4), KInt(4), KStr, KStr])
    else if typ == MT.T_WALK then Some([KInt(4), KInt(4), KInt(2)])
    else if typ == MT.T_OPEN then Some([KInt(4), KInt(1)])
    else if typ == MT.T_CREATE then Some([KInt(4), KStr, KInt(4), KInt(1)])
    else if typ == MT.T_READ || typ == MT.T_WRITE then Some([KInt(4), KInt(8), KInt(4)])
    else if typ == MT.T_CLUNK || typ == MT.T_REMOVE || typ == MT.T_STAT then Some([KInt(4)])
    else if typ == MT.T_WSTAT then Some([KInt(4), KInt(2)])
    else None
  }

  ghost predicate HeadOk(typ: uint8, head: seq<Field>) {
    HeadKinds(typ).Some? && Match(head, HeadKinds(typ).value)
  }

  function TailKinds(typ: uint8, head: seq<Field>): seq<Kind>
    requires HeadOk(typ, head)
  {
    assert forall i :: 0 <= i < |head| ==> KindOf(head[i]) == HeadKinds(typ).value[i];
    if typ == MT.T_WALK then seq(head[2].v, i => KStr)
    else if typ == MT.T_WRITE then [KRaw(head[2].v)]
    else if typ == MT.T_WSTAT then STAT_KINDS
    else []
  }

  function Build(typ: uint8, head: seq<Field>, tail: seq<Field>): Request
    requires HeadOk(typ, head) && Match(tail, TailKinds(typ, head))
  {
    assert forall i :: 0 <= i < |head| ==> KindOf(head[i]) == HeadKinds(typ).value[i];
    assert forall i :: 0 <= i < |tail| ==> KindOf(tail[i]) == TailKinds(typ, head)[i];
    if typ == MT.T_VERSION then TVersion(head[0].v, head[1].s)
    else if typ == MT.T_AUTH then TAuth(head[0].v, head[1].s, head[2].s)
    else if typ == MT.T_FLUSH then TFlush(head[0].v)
    else if typ == MT.T_ATTACH then TAttach(head[0].v, head[1].v, head[2].s, head[3].s)
    else if typ == MT.T_WALK then
      TWalk(head[0].v, head[1].v, seq(|tail|, i requires 0 <= i < |tail| => tail[i].s))
    else if typ == MT.T_OPEN then TOpen(head[0].v, head[1].v)
    else if typ == MT.T_CREATE then TCreate(head[0].v, head[1].s, head[2].v, head[3].v)
    else if typ == MT.T_READ then TRead(head[0].v, head[1].v, head[2].v)
    else if typ == MT.T_WRITE then TWrite(head[0].v, head[1].v, tail[0].data)
    else if typ == MT.T_CLUNK then TClunk(head[0].v)
    else if typ == MT.T_REMOVE then TRemove(head[0].v)
    else if typ == MT.T_STAT then TStat(head[0].v)
    else TWstat(head[0].v, StatOf(tail))
  }

  const FRAME_KINDS: seq<Kind> := [KInt(4), KInt(1), KInt(2)]

  /** A stat's announced size must be its size. */
  predicate SizeAgrees(typ: uint8, head: seq<Field>, m: Request) {
    m.TWstat? ==> |head| == 2 && head[1] == FInt(2, StatSize(m.stat))
  }

  /** A strict reader: the frame length must be exact and no byte may be left over. */
  function Decode(frame: Bytes): Option<(Tag, Request)> {
    match ReadFields(FRAME_KINDS, frame)
    case Throw(_) => None
    case Ok((pre, b)) =>
      assert KindOf(pre[0]) == KInt(4) && KindOf(pre[1]) == KInt(1) && KindOf(pre[2]) == KInt(2);
      if pre[0].v != |frame| || HeadKinds(pre[1].v) == None then None
      else
        match ReadFields(HeadKinds(pre[1].v).value, b)
        case Throw(_) => None
        case Ok((head, b1)) =>
          match ReadFields(TailKinds(pre[1].v, head), b1)
          case Throw(_) => None
          case Ok((tail, b2)) =>
            var m := Build(pre[1].v, head, tail);
            if b2 == [] && SizeAgrees(pre[1].v, head, m) then Some((pre[2].v, m)) else None
  }

  lemma {:induction false} FieldsMatchKinds(m: Request)
    requires Encodable(m)
    ensures HeadOk(TypeOf(m), HeadFields(m))
    ensures Match(TailFields(m), TailKinds(TypeOf(m), HeadFields(m)))
    ensures Build(TypeOf(m), HeadFields(m), TailFields(m)) == m
    ensures SizeAgrees(TypeOf(m), HeadFields(m), m)
  {
    HeadMatches(m);
    TailMatches(m);
    if m.TWalk? {
      var fs := NameFields(m.wnames);
      assert seq(|fs|, i requires 0 <= i < |fs| => fs[i].s) == m.wnames;
    } else if m.TWstat? {
      StatFieldsMatch(m.stat);
    }
  }

  lemma {:induction false} HeadMatches(m: Request)
    requires Encodable(m)
    ensures HeadOk(TypeOf(m), HeadFields(m))
  {
  }

  lemma {:induction false} TailMatches(m: Request)
    requires Encodable(m) && HeadOk(TypeOf(m), HeadFields(m))
    ensures Match(TailFields(m), TailKinds(TypeOf(m), HeadFields(m)))
  {
    if m.TWalk? {
      assert forall i :: 0 <= i < |m.wnames| ==> m.wnames[i] in m.wnames;
    } else if m.TWstat? {
      StatFieldsMatch(m.stat);
    }
  }

  lemma {:induction false} BuildInverse(typ: uint8, head: seq<Field>, tail: seq<Field>)
    requires HeadOk(typ, head) && Match(tail, TailKinds(typ, head))
    requires SizeAgrees(typ, head, Build(typ, head, tail))
    ensures var m := Build(typ, head, tail);
            TypeOf(m) == typ && HeadFields(m) == head && TailFields(m) == tail && Encodable(m)
  {
    BuildHeadInverse(typ, head, tail);
    var m := Build(typ, head, tail);
    if m.TWstat? {
      StatOfInverse(tail);
    } else {
      assert forall i :: 0 <= i < |tail| ==> KindOf(tail[i]) == TailKinds(typ, head)[i] && FieldOk(tail[i]);
      assert TailFields(m) == tail;
    }
  }

  lemma {:induction false} BuildHeadInverse(typ: uint8, head: seq<Field>, tail: seq<Field>)
    requires HeadOk(typ, head) && Match(tail, TailKinds(typ, head))
    requires SizeAgrees(typ, head, Build(typ, head, tail))
    ensures var m := Build(typ, head, tail);
            TypeOf(m) == typ && HeadFields(m) == head && Encodable(m)
  {
    var m := Build(typ, head, tail);
    HeadFieldsOk(typ, head);
    if m.TWalk? {
      assert forall i :: 0 <= i < |tail| ==> KindOf(tail[i]) == KStr && FieldOk(tail[i]);
    } else if m.TWrite? {
      assert KindOf(tail[0]) == KRaw(head[2].v);
    }
    assert HeadFields(m) == head;
  }

  lemma {:induction false} HeadFieldsOk(typ: uint8, head: seq<Field>)
    requires HeadOk(typ, head)
    ensures var ks := HeadKinds(typ).value;
            && (|head| > 0 ==> KindOf(head[0]) == ks[0] && FieldOk(head[0]))
            && (|head| > 1 ==> KindOf(head[1]) == ks[1] && FieldOk(head[1]))
            && (|head| > 2 ==> KindOf(head[2]) == ks[2] && FieldOk(head[2]))
            && (|head| > 3 ==> KindOf(head[3]) == ks[3] && FieldOk(head[3]))
  {
  }

  lemma {:induction false} EncFields3(a: seq<Field>, b: seq<Field>, c: seq<Field>)
    ensures EncFields(a + b + c) == EncFields(a) + (EncFields(b) + EncFields(c))
  {
    EncFieldsAppend(a + b, c);
    EncFieldsAppend(a, b);
    Associative(EncFields(a), EncFields(b), EncFields(c));
  }

  lemma {:induction false} EncFieldsCons(f: Field, fs: seq<Field>)
    ensures EncFields([f] + fs) == EncField(f) + EncFields(fs)
  {
    assert ([f] + fs)[1..] == fs;
  }

  /** The length prefix is itself a field, and the frame splits where the decoder changes its kinds. */
  lemma {:induction false} EncodeShape(tag: Tag, m: Request)
    ensures var size := |Encode(tag, m)|;
            Encode(tag, m) == EncFields([FInt(4, size)] + Preamble(tag, m))
                              + (EncFields(HeadFields(m)) + EncFields(TailFields(m)))
  {
    var p, h, t := Preamble(tag, m), HeadFields(m), TailFields(m);
    EncFields3(p, h, t);
    EncFieldsCons(FInt(4, |Encode(tag, m)|), p);
    Associative(LeBytes(|Encode(tag, m)|, 4), EncFields(p), EncFields(h) + EncFields(t));
  }

  /** The decoder inverts the reference encoding. */
  lemma {:induction false} RequestRoundTrip(tag: Tag, m: Request)
    requires Encodable(m) && |Encode(tag, m)| < 0x1_0000_0000
    ensures Decode(Encode(tag, m)) == Some((tag, m))
  {
    hide EncFields, ReadFields;
    var frame, head, tail := Encode(tag, m), HeadFields(m), TailFields(m);
    var pre := [FInt(4, |frame|)] + Preamble(tag, m);
    EncodeShape(tag, m);
    FieldsMatchKinds(m);
    ReadFieldsOfEncoding(pre, FRAME_KINDS, EncFields(head) + EncFields(tail));
    ReadFieldsOfEncoding(head, HeadKinds(TypeOf(m)).value, EncFields(tail));
    ReadFieldsOfEncoding(tail, TailKinds(TypeOf(m), head), []);
    assert EncFields(tail) + [] == EncFields(tail);
  }

  /** The encoding inverts the decoder: whatever decodes is the encoding of what it decodes to. */
  lemma {:induction false} DecodeInverse(frame: Bytes)
    requires Decode(frame).Some?
    ensures var (tag, m) := Decode(frame).value; Encodable(m) && frame == Encode(tag, m)
  {
    var (pre, b) := ReadFields(FRAME_KINDS, frame).value;
    assert KindOf(pre[0]) == KInt(4) && KindOf(pre[1]) == KInt(1) && KindOf(pre[2]) == KInt(2);
    var typ := pre[1].v;
    var (head, b1) := ReadFields(HeadKinds(typ).value, b).value;
    var (tail, b2) := ReadFields(TailKinds(typ, head), b1).value;
    var (tag, m) := Decode(frame).value;
    BuildInverse(typ, head, tail);
    ReadFieldsInverse(FRAME_KINDS, frame);
    ReadFieldsInverse(HeadKinds(typ).value, b);
    ReadFieldsInverse(TailKinds(typ, head), b1);
    assert frame == EncFields(pre) + (EncFields(head) + EncFields(tail)) by {
      assert EncFields(tail) + [] == EncFields(tail);
    }
    assert pre == [FInt(4, |frame|)] + Preamble(tag, m);
    SameFrame(frame, tag, m);
  }

  lemma {:induction false} SameFrame(frame: Bytes, tag: Tag, m: Request)
    requires frame == EncFields([FInt(4, |frame|)] + Preamble(tag, m))
                      + (EncFields(HeadFields(m)) + EncFields(TailFields(m)))
    ensures frame == Encode(tag, m)
  {
    var p, h, t := Preamble(tag, m), HeadFields(m), TailFields(m);
    EncFieldsCons(FInt(4, |frame|), p);
    EncFields3(p, h, t);
    Associative(LeBytes(|frame|, 4), EncFields(p), EncFields(h) + EncFields(t));
  }

  /** Two different requests never share their bytes. */
  lemma {:induction false} RequestsAreUnambiguous(tag: Tag, m: Request, tag': Tag, m': Request)
    requires Encodable(m) && Encodable(m') && |Encode(tag, m)| < 0x1_0000_0000
    requires Encode(tag, m) == Encode(tag', m')
    ensures tag == tag' && m == m'
  {
    RequestRoundTrip(tag, m);
    RequestRoundTrip(tag', m');
  }

  // ---------------------------------------------------------------- what the builder writes

  /** writeString drops, without a sign, a string longer than the whole buffer or than its length field allows. */
  predicate Writable(cap: nat, s: Bytes) { |s| <= cap && StrOk(s) }

  function StrFields(cap: nat, s: Bytes): seq<Field> {
    if Writable(cap, s) then [FStr(s)] else []
  }

  function StrSize(cap: nat, s: Bytes): nat {
    if Writable(cap, s) then 2 + |s| else 0
  }

  function WithNames(cap: nat, fs: seq<Field>, wnames: seq<Bytes>): seq<Field> {
    if wnames == [] then fs
    else WithNames(cap, fs, wnames[..|wnames| - 1]) + StrFields(cap, wnames[|wnames| - 1])
  }

  function WithStat(cap: nat, fs: seq<Field>, s: Stat): seq<Field> {
    WithStatHead(fs + [FInt(2, StatSize(s) % 0x1_0000)], s)
    + StrFields(cap, s.name) + StrFields(cap, s.uid) + StrFields(cap, s.gid) + StrFields(cap, s.muid)
  }

  /** All fields after the length, as the builder writes them one by one into a buffer of `cap` bytes: counts
      and sizes are narrowed to their field, some strings are missing. */
  function WrittenFields(cap: nat, tag: Tag, m: Request): seq<Field> {
    var pre := Preamble(tag, m);
    match m
    case TVersion(msize, version) => pre + [FInt(4, msize)] + StrFields(cap, version)
    case TAuth(afid, uname, aname) => pre + [FInt(4, afid)] + StrFields(cap, uname) + StrFields(cap, aname)
    case TFlush(oldtag) => pre + [FInt(2, oldtag)]
    case TAttach(fid, afid, uname, aname) =>
      pre + [FInt(4, fid)] + [FInt(4, afid)] + StrFields(cap, uname) + StrFields(cap, aname)
    case TWalk(fid, newfid, wnames) =>
      WithNames(cap, pre + [FInt(4, fid)] + [FInt(4, newfid)] + [FInt(2, |wnames| % 0x1_0000)], wnames)
    case TOpen(fid, mode) => pre + [FInt(4, fid)] + [FInt(1, mode)]
    case TCreate(fid, name, perm, mode) =>
      pre + [FInt(4, fid)] + StrFields(cap, name) + [FInt(4, perm)] + [FInt(1, mode)]
    case TRead(fid, offset, count) => pre + [FInt(4, fid)] + [FInt(8, offset)] + [FInt(4, count)]
    case TWrite(fid, offset, data) =>
      pre + [FInt(4, fid)] + [FInt(8, offset)] + [FInt(4, |data| % 0x1_0000_0000)] + [FRaw(data)]
    case TClunk(fid) => pre + [FInt(4, fid)]
    case TRemove(fid) => pre + [FInt(4, fid)]
    case TStat(fid) => pre + [FInt(4, fid)]
    case TWstat(fid, stat) => WithStat(cap, pre + [FInt(4, fid)], stat)
  }

  /** What a caller can check before building: no string is dropped, no count is narrowed. */
  predicate Faithful(cap: nat, m: Request) {
    match m
    case TVersion(_, version) => Writable(cap, version)
    case TAuth(_, uname, aname) => Writable(cap, uname) && Writable(cap, aname)
    case TAttach(_, _, uname, aname) => Writable(cap, uname) && Writable(cap, aname)
    case TWalk(_, _, wnames) => |wnames| < 0x1_0000 && forall s :: s in wnames ==> Writable(cap, s)
    case TCreate(_, name, _, _) => Writable(cap, name)
    case TWrite(_, _, data) => |data| < 0x1_0000_0000
    case TWstat(_, stat) =>
      StatOk(stat) && |stat.name| <= cap && |stat.uid| <= cap && |stat.gid| <= cap && |stat.muid| <= cap
    case _ => true
  }

  lemma {:induction false} NamesWritten(cap: nat, fs: seq<Field>, wnames: seq<Bytes>)
    requires forall s :: s in wnames ==> Writable(cap, s)
    ensures WithNames(cap, fs, wnames) == fs + NameFields(wnames)
  {
    if wnames == [] {
      assert fs + NameFields([]) == fs;
    } else {
      var n := |wnames| - 1;
      assert wnames[n] in wnames;
      NamesWritten(cap, fs, wnames[..n]);
      assert NameFields(wnames) == NameFields(wnames[..n]) + [FStr(wnames[n])];
    }
  }

  lemma {:induction false} StatWritten(cap: nat, fs: seq<Field>, s: Stat)
    requires Writable(cap, s.name) && Writable(cap, s.uid) && Writable(cap, s.gid) && Writable(cap, s.muid)
    requires StatOk(s)
    ensures WithStat(cap, fs, s) == fs + [FInt(2, StatSize(s))] + StatFields(s)
  {
    var fs1 := fs + [FInt(2, StatSize(s))];
    StatHeadInSteps(fs1, s);
    assert StatFields(s) == StatHead(s) + [FStr(s.name)] + [FStr(s.uid)] + [FStr(s.gid)] + [FStr(s.muid)];
  }

  lemma {:induction false} FaithfulIsReference(cap: nat, tag: Tag, m: Request)
    requires Faithful(cap, m)
    ensures WrittenFields(cap, tag, m) == Preamble(tag, m) + HeadFields(m) + TailFields(m)
    ensures Frame(WrittenFields(cap, tag, m)) == Encode(tag, m)
  {
    if m.TWalk? || m.TWstat? || m.TWrite? {
      CountedIsReference(cap, tag, m);
    } else if m.TVersion? || m.TAuth? || m.TAttach? || m.TCreate? {
      NamedIsReference(cap, tag, m);
    } else {
      assert TailFields(m) == [];
      assert WrittenFields(cap, tag, m) == Preamble(tag, m) + HeadFields(m);
    }
  }

  lemma {:induction false} CountedIsReference(cap: nat, tag: Tag, m: Request)
    requires Faithful(cap, m) && (m.TWalk? || m.TWstat? || m.TWrite?)
    ensures WrittenFields(cap, tag, m) == Preamble(tag, m) + HeadFields(m) + TailFields(m)
  {
    hide WithNames, WithStat, NameFields, StatFields, StatSize;
    var pre := Preamble(tag, m);
    if m.TWalk? {
      WalkIsReference(cap, pre, m.fid, m.newfid, m.wnames);
    } else if m.TWstat? {
      WstatIsReference(cap, pre, m.fid, m.stat);
    } else {
      assert pre + [FInt(4, m.fid)] + [FInt(8, m.offset)] + [FInt(4, |m.data|)] == pre + HeadFields(m);
    }
  }

  lemma {:induction false} WalkIsReference(cap: nat, pre: seq<Field>, fid: Fid, newfid: Fid, wnames: seq<Bytes>)
    requires forall s :: s in wnames ==> Writable(cap, s)
    ensures WithNames(cap, pre + [FInt(4, fid)] + [FInt(4, newfid)] + [FInt(2, |wnames|)], wnames) ==
            pre + [FInt(4, fid), FInt(4, newfid), FInt(2, |wnames|)] + NameFields(wnames)
  {
    var fs := pre + [FInt(4, fid)] + [FInt(4, newfid)] + [FInt(2, |wnames|)];
    NamesWritten(cap, fs, wnames);
    assert fs == pre + [FInt(4, fid), FInt(4, newfid), FInt(2, |wnames|)];
  }

  lemma {:induction false} WstatIsReference(cap: nat, pre: seq<Field>, fid: Fid, stat: Stat)
    requires Faithful(cap, TWstat(fid, stat))
    ensures WithStat(cap, pre + [FInt(4, fid)], stat) ==
            pre + [FInt(4, fid), FInt(2, StatSize(stat))] + StatFields(stat)
  {
    hide StatFields, WithStat;
    StatWritten(cap, pre + [FInt(4, fid)], stat);
    assert pre + [FInt(4, fid)] + [FInt(2, StatSize(stat))] == pre + [FInt(4, fid), FInt(2, StatSize(stat))];
  }

  lemma {:induction false} NamedIsReference(cap: nat, tag: Tag, m: Request)
    requires Faithful(cap, m) && (m.TVersion? || m.TAuth? || m.TAttach? || m.TCreate?)
    ensures WrittenFields(cap, tag, m) == Preamble(tag, m) + HeadFields(m) + TailFields(m)
  {
    assert TailFields(m) == [];
    assert WrittenFields(cap, tag, m) == Preamble(tag, m) + HeadFields(m);
  }

  /** A message of at most `cap` bytes holds no string longer than that. */
  lemma {:induction false} FittingIsFaithful(cap: nat, tag: Tag, m: Request)
    requires Encodable(m) && |Encode(tag, m)| <= cap
    ensures Faithful(cap, m)
  {
    var fs := Preamble(tag, m) + HeadFields(m) + TailFields(m);
    forall i | 0 <= i < |fs| && fs[i].FStr?
      ensures |fs[i].s| <= cap
    {
      EncFieldsHolds(fs, i);
    }
    var h := 2 + |HeadFields(m)|;
    match m
    case TVersion(_, _) => assert fs[3] == FStr(m.version);
    case TAuth(_, _, _) => assert fs[3] == FStr(m.uname) && fs[4] == FStr(m.aname);
    case TAttach(_, _, _, _) => assert fs[4] == FStr(m.uname) && fs[5] == FStr(m.aname);
    case TWalk(_, _, wnames) =>
      assert forall i :: 0 <= i < |wnames| ==> fs[h + i] == FStr(wnames[i]);
    case TCreate(_, _, _, _) => assert fs[3] == FStr(m.name);
    case TWstat(_, stat) =>
      assert fs[h + 9] == FStr(stat.name) && fs[h + 10] == FStr(stat.uid);
      assert fs[h + 11] == FStr(stat.gid) && fs[h + 12] == FStr(stat.muid);
    case _ =>
  }

  /** Exactly when the builder's bytes mean the request it was asked to build. */
  lemma {:induction false} BuiltFrameMeansItsRequestExactly(cap: nat, tag: Tag, m: Request)
    requires |Frame(WrittenFields(cap, tag, m))| <= cap < 0x8000_0000
    ensures Decode(Frame(WrittenFields(cap, tag, m))) == Some((tag, m)) <==> Faithful(cap, m)
    ensures Faithful(cap, m) <==>
            && (m.TVersion? ==> |m.version| <= cap && |m.version| <= 65535)
            && (m.TAuth? || m.TAttach? ==> |m.uname| <= cap && |m.uname| <= 65535
                                           && |m.aname| <= cap && |m.aname| <= 65535)
            && (m.TWalk? ==> |m.wnames| <= 65535 && forall s :: s in m.wnames ==> |s| <= cap && |s| <= 65535)
            && (m.TCreate? ==> |m.name| <= cap && |m.name| <= 65535)
            && (m.TWrite? ==> |m.data| <= 0xFFFF_FFFF)
            && (m.TWstat? ==> |m.stat.name| <= cap && |m.stat.uid| <= cap && |m.stat.gid| <= cap && |m.stat.muid| <= cap
                              && 47 + |m.stat.name| + |m.stat.uid| + |m.stat.gid| + |m.stat.muid| <= 65535)
  {
    var frame := Frame(WrittenFields(cap, tag, m));
    if Faithful(cap, m) {
      FaithfulIsReference(cap, tag, m);
      RequestRoundTrip(tag, m);
    }
    if Decode(frame) == Some((tag, m)) {
      DecodeInverse(frame);
      FittingIsFaithful(cap, tag, m);
    }
  }

  /** A name longer than the buffer is lost: the walk announces one name and holds none, and no request decodes
      from it. */
  lemma {:induction false} DroppedNameIsLost(cap: nat, tag: Tag, fid: Fid, newfid: Fid, name: Bytes)
    requires |name| > cap
    ensures var m := TWalk(fid, newfid, [name]);
            && WrittenFields(cap, tag, m) == Preamble(tag, m) + [FInt(4, fid), FInt(4, newfid), FInt(2, 1)]
            && |Frame(WrittenFields(cap, tag, m))| == 17
            && Decode(Frame(WrittenFields(cap, tag, m))) == None
  {
    hide EncFields, ReadFields;
    var m := TWalk(fid, newfid, [name]);
    var head := [FInt(4, fid), FInt(4, newfid), FInt(2, 1)];
    var fs := WrittenFields(cap, tag, m);
    assert [name][..0] == [];
    assert Preamble(tag, m) + [FInt(4, fid)] + [FInt(4, newfid)] + [FInt(2, 1)] == Preamble(tag, m) + head;
    assert fs == WithNames(cap, Preamble(tag, m) + head, [name]) == Preamble(tag, m) + head;
    var frame := Frame(fs);
    var pre := [FInt(4, |frame|)] + Preamble(tag, m);
    EncFieldsAppend(Preamble(tag, m), head);
    EncFieldsCons(FInt(4, |frame|), Preamble(tag, m));
    Associative(LeBytes(|frame|, 4), EncFields(Preamble(tag, m)), EncFields(head));
    WalkHeaderSize(tag, fid, newfid, m);
    ReadFieldsOfEncoding(pre, FRAME_KINDS, EncFields(head));
    ReadFieldsOfEncoding(head, HeadKinds(MT.T_WALK).value, []);
    assert EncFields(head) + [] == EncFields(head);
    assert TailKinds(MT.T_WALK, head) == [KStr];
    NoNameInNothing();
  }

  lemma {:induction false} WalkHeaderSize(tag: Tag, fid: Fid, newfid: Fid, m: Request)
    ensures |EncFields(Preamble(tag, m))| == 3
    ensures |EncFields([FInt(4, fid), FInt(4, newfid), FInt(2, 1)])| == 10
  {
    EncFieldsCons(FInt(1, TypeOf(m)), [FInt(2, tag)]);
    EncFieldsCons(FInt(2, tag), []);
    EncFieldsCons(FInt(4, fid), [FInt(4, newfid), FInt(2, 1)]);
    EncFieldsCons(FInt(4, newfid), [FInt(2, 1)]);
    EncFieldsCons(FInt(2, 1), []);
    assert [FInt(2, tag)] + [] == [FInt(2, tag)] && [FInt(2, 1)] + [] == [FInt(2, 1)];
    assert [FInt(1, TypeOf(m))] + [FInt(2, tag)] == Preamble(tag, m);
    assert [FInt(4, newfid)] + [FInt(2, 1)] == [FInt(4, newfid), FInt(2, 1)];
    assert [FInt(4, fid)] + [FInt(4, newfid), FInt(2, 1)] == [FInt(4, fid), FInt(4, newfid), FInt(2, 1)];
  }

  lemma {:induction false} NoNameInNothing()
    ensures ReadFields([KStr], []).Throw?
  {
  }

  // ---------------------------------------------------------------- the tag on the wire

  /** Whatever is dropped or narrowed, a message begins with its type and its tag. */
  lemma {:induction false} WrittenBegins(cap: nat, tag: Tag, m: Request)
    ensures Preamble(tag, m) <= WrittenFields(cap, tag, m)
  {
    hide WithNames, WithStat;
    if m.TWalk? {
      var fs := Preamble(tag, m) + [FInt(4, m.fid)] + [FInt(4, m.newfid)] + [FInt(2, |m.wnames| % 0x1_0000)];
      NamesComeAfter(cap, fs, m.wnames);
    } else if m.TWstat? {
      StatComesAfter(cap, Preamble(tag, m) + [FInt(4, m.fid)], m.stat);
    }
  }

  lemma {:induction false} NamesComeAfter(cap: nat, fs: seq<Field>, wnames: seq<Bytes>)
    ensures fs <= WithNames(cap, fs, wnames)
  {
    if wnames != [] {
      NamesComeAfter(cap, fs, wnames[..|wnames| - 1]);
    }
  }

  lemma {:induction false} StatComesAfter(cap: nat, fs: seq<Field>, s: Stat)
    ensures fs <= WithStat(cap, fs, s)
  {
    StatHeadInSteps(fs + [FInt(2, StatSize(s) % 0x1_0000)], s);
  }

  /** The tag field of a frame. */
  function WireTag(frame: Bytes): nat
    requires |frame| >= 7
  {
    LeValue(frame[5..7])
  }

  lemma {:induction false} BuiltFrameCarriesItsTag(cap: nat, tag: Tag, m: Request)
    ensures var frame := Frame(WrittenFields(cap, tag, m)); |frame| >= 7 && WireTag(frame) == tag
  {
    hide WrittenFields;
    var fs := WrittenFields(cap, tag, m);
    WrittenBegins(cap, tag, m);
    assert fs == [FInt(1, TypeOf(m))] + ([FInt(2, tag)] + fs[2..]);
    EncFieldsCons(FInt(1, TypeOf(m)), [FInt(2, tag)] + fs[2..]);
    EncFieldsCons(FInt(2, tag), fs[2..]);
    assert Frame(fs)[5..7] == LeBytes(tag, 2);
    LeValueOfBytes(tag, 2);
  }
}
