/** The vocabulary of 9P2000 on the wire: bytes, integers, strings, qids and stat records.
    `Put...` prepends an encoding to the bytes that follow it; `Read...` is what the parser computes from a view. */
module Wire {
  import opened Bits

  type byte = x: int | 0 <= x < 0x100
  type uint8 = byte
  type uint16 = x: int | 0 <= x < 0x1_0000
  type uint32 = x: int | 0 <= x < 0x1_0000_0000
  type uint64 = x: int | 0 <= x < 0x1_0000_0000_0000_0000

  type Bytes = seq<byte>
  type Tag = uint16
  type Fid = uint32

  const NOFID: Fid := 0xFFFF_FFFF
  const NOTAG: Tag := 0xFFFF

  /** The exceptions of the program, and `Undefined`: the source has no defined behaviour from here on
      (an unchecked view runs past the bytes it is cut from). */
  datatype Error =
    | BufferOverrun | UnknownMessageTag | Undefined
    | ConnectionClosed | ErrorMessageReceived | UnexpectedMessageReceived
    | VersionHandshakeError | ServerRequestedAuthentication | NarrowingError

  datatype Outcome<+T> = Ok(value: T) | Throw(error: Error) {
    predicate IsFailure() { Throw? }
    function PropagateFailure<U>(): Outcome<U>
      requires Throw?
    {
      Throw(error)
    }
    function Extract(): T
      requires Ok?
    {
      value
    }
  }

  datatype Qid = Qid(typ: uint8, vers: uint32, path: uint64)

  datatype Stat = Stat(typ: uint16, dev: uint32, qid: Qid, mode: uint32, atime: uint32, mtime: uint32,
                       length: uint64, name: Bytes, uid: Bytes, gid: Bytes, muid: Bytes)

  // ---------------------------------------------------------------- integers

  /** `v` in `w` bytes, least significant first; what does not fit is lost, as in a C++ narrowing cast. */
  function LeBytes(v: nat, w: nat): (bs: Bytes)
    ensures |bs| == w
  {
    seq(w, i requires 0 <= i < w => v / Pow256(i) % 256)
  }

  lemma {:induction false} LeBytesStep(v: nat, w: nat)
    requires w > 0
    ensures LeBytes(v, w) == [v % 256] + LeBytes(v / 256, w - 1)
  {
    forall i | 1 <= i < w
      ensures v / Pow256(i) == v / 256 / Pow256(i - 1)
    {
      DivDiv(v, 256, Pow256(i - 1));
    }
  }

  /** The base-256 sum of the bytes. */
  function LeValue(bs: Bytes): nat {
    if bs == [] then 0 else bs[0] + 256 * LeValue(bs[1..])
  }

  lemma {:induction false} LeValueBound(bs: Bytes)
    ensures LeValue(bs) < Pow256(|bs|)
  {
    if bs != [] {
      LeValueBound(bs[1..]);
    }
  }

  lemma {:induction false} LeValueOfBytes(v: nat, w: nat)
    requires v < Pow256(w)
    ensures LeValue(LeBytes(v, w)) == v
  {
    if w > 0 {
      LeBytesStep(v, w);
      LeValueOfBytes(v / 256, w - 1);
    }
  }

  lemma {:induction false} LeBytesOfValue(bs: Bytes)
    ensures LeBytes(LeValue(bs), |bs|) == bs
  {
    if bs != [] {
      LeBytesStep(LeValue(bs), |bs|);
      LeBytesOfValue(bs[1..]);
    }
  }

  /** One more byte at the top: the step of the parsing loop. */
  lemma {:induction false} LeValueSnoc(bs: Bytes, x: byte)
    ensures LeValue(bs + [x]) == LeValue(bs) + x * Pow256(|bs|)
  {
    if bs == [] {
      assert [x][1..] == [];
    } else {
      var p := Pow256(|bs| - 1);
      LeValueSnoc(bs[1..], x);
      assert (bs + [x])[1..] == bs[1..] + [x];
      assert 256 * (x * p) == x * (256 * p);
    }
  }

  function ReadInt(w: nat, b: Bytes): (r: Outcome<(nat, Bytes)>)
    ensures r.Ok? <==> |b| >= w
    ensures r.Ok? ==> r.value.0 < Pow256(w) && |r.value.1| == |b| - w
    ensures r.Throw? ==> r.error == BufferOverrun
  {
    if |b| < w then Throw(BufferOverrun)
    else
      LeValueBound(b[..w]);
      Ok((LeValue(b[..w]), b[w..]))
  }

  lemma {:induction false} ReadIntInverse(w: nat, b: Bytes)
    requires ReadInt(w, b).Ok?
    ensures var (v, rest) := ReadInt(w, b).value; b == LeBytes(v, w) + rest
  {
    LeBytesOfValue(b[..w]);
  }

  function PutInt(w: nat, v: nat, k: Bytes): (b: Bytes)
    requires v < Pow256(w)
    ensures |b| == w + |k| && ReadInt(w, b) == Ok((v, k))
  {
    LeValueOfBytes(v, w);
    assert (LeBytes(v, w) + k)[..w] == LeBytes(v, w);
    LeBytes(v, w) + k
  }

  lemma {:induction false} Associative(a: Bytes, b: Bytes, c: Bytes)
    ensures a + b + c == a + (b + c)
  {
  }

  function Concat(parts: seq<Bytes>): Bytes {
    if parts == [] then [] else parts[0] + Concat(parts[1..])
  }

  // ---------------------------------------------------------------- strings

  predicate StrOk(s: Bytes) { |s| < 0x1_0000 }

  function ReadStr(b: Bytes): (r: Outcome<(Bytes, Bytes)>)
    ensures r.Ok? ==> StrOk(r.value.0)
    ensures r.Ok? <==> |b| >= 2 && |b| >= 2 + LeValue(b[..2])
    ensures r.Throw? ==> r.error == BufferOverrun
  {
    var (n, b1) :- ReadInt(2, b);
    if |b1| < n then Throw(BufferOverrun) else Ok((b1[..n], b1[n..]))
  }

  lemma {:induction false} ReadStrInverse(b: Bytes)
    requires ReadStr(b).Ok?
    ensures var (s, rest) := ReadStr(b).value; b == LeBytes(|s|, 2) + s + rest
  {
    ReadIntInverse(2, b);
  }

  function PutStr(s: Bytes, k: Bytes): (b: Bytes)
    requires StrOk(s)
    ensures |b| == 2 + |s| + |k| && ReadStr(b) == Ok((s, k))
  {
    PutInt(2, |s|, s + k)
  }

  // ---------------------------------------------------------------- qids

  function ReadQid(b: Bytes): (r: Outcome<(Qid, Bytes)>)
    ensures r.Ok? <==> |b| >= 13
    ensures r.Ok? ==> |r.value.1| == |b| - 13
    ensures r.Throw? ==> r.error == BufferOverrun
  {
    var (typ, b1) :- ReadInt(1, b);
    var (vers, b2) :- ReadInt(4, b1);
    var (path, b3) :- ReadInt(8, b2);
    Ok((Qid(typ, vers, path), b3))
  }

  function PutQid(q: Qid, k: Bytes): (b: Bytes)
    ensures |b| == 13 + |k|
  {
    PutInt(1, q.typ, PutInt(4, q.vers, PutInt(8, q.path, k)))
  }

  function ReadQids(n: nat, b: Bytes): (r: Outcome<(seq<Qid>, Bytes)>)
    ensures r.Ok? <==> |b| >= 13 * n
    ensures r.Ok? ==> |r.value.0| == n
    ensures r.Throw? ==> r.error == BufferOverrun
  {
    if n == 0 then Ok(([], b))
    else
      var (q, b1) :- ReadQid(b);
      var (qs, b2) :- ReadQids(n - 1, b1);
      Ok(([q] + qs, b2))
  }

  function PutQids(qs: seq<Qid>, k: Bytes): (b: Bytes)
    ensures |b| == 13 * |qs| + |k|
  {
    if qs == [] then k else PutQid(qs[0], PutQids(qs[1..], k))
  }

  lemma {:induction false} QidsRoundTrip(qs: seq<Qid>, k: Bytes)
    ensures ReadQids(|qs|, PutQids(qs, k)) == Ok((qs, k))
  {
    if qs != [] {
      QidsRoundTrip(qs[1..], k);
      assert ReadQid(PutQids(qs, k)) == Ok((qs[0], PutQids(qs[1..], k)));
      assert [qs[0]] + qs[1..] == qs;
    }
  }

  // ---------------------------------------------------------------- field lists

  /** A record as a flat list of fields; `Kind` is what a reader must know to cut one field off. */
  datatype Kind = KInt(width: nat) | KStr | KRaw(count: nat)

  datatype Field = FInt(width: nat, v: nat) | FStr(s: Bytes) | FRaw(data: Bytes)

  function KindOf(f: Field): Kind {
    match f
    case FInt(width, _) => KInt(width)
    case FStr(_) => KStr
    case FRaw(data) => KRaw(|data|)
  }

  predicate FieldOk(f: Field) {
    match f
    case FInt(width, v) => v < Pow256(width)
    case FStr(s) => StrOk(s)
    case FRaw(_) => true
  }

  function EncField(f: Field): Bytes {
    match f
    case FInt(width, v) => LeBytes(v, width)
    case FStr(s) => LeBytes(|s|, 2) + s
    case FRaw(data) => data
  }

  function EncFields(fs: seq<Field>): Bytes {
    if fs == [] then [] else EncField(fs[0]) + EncFields(fs[1..])
  }

  function ReadField(k: Kind, b: Bytes): (r: Outcome<(Field, Bytes)>)
    ensures r.Ok? ==> KindOf(r.value.0) == k && FieldOk(r.value.0)
    ensures r.Throw? ==> r.error == BufferOverrun
  {
    match k
    case KInt(width) =>
      var (v, rest) :- ReadInt(width, b);
      Ok((FInt(width, v), rest))
    case KStr =>
      var (s, rest) :- ReadStr(b);
      Ok((FStr(s), rest))
    case KRaw(count) =>
      if |b| < count then Throw(BufferOverrun) else Ok((FRaw(b[..count]), b[count..]))
  }

  function ReadFields(ks: seq<Kind>, b: Bytes): (r: Outcome<(seq<Field>, Bytes)>)
    ensures r.Ok? ==> Match(r.value.0, ks)
    ensures r.Throw? ==> r.error == BufferOverrun
  {
    if ks == [] then Ok(([], b))
    else
      var (f, b1) :- ReadField(ks[0], b);
      var (fs, b2) :- ReadFields(ks[1..], b1);
      Ok(([f] + fs, b2))
  }

  /** `fs` are well-formed fields of the kinds `ks`. */
  ghost predicate Match(fs: seq<Field>, ks: seq<Kind>) {
    |fs| == |ks| && forall i :: 0 <= i < |fs| ==> KindOf(fs[i]) == ks[i] && FieldOk(fs[i])
  }

  lemma {:induction false} ReadFieldOfEncoding(f: Field, k: Bytes)
    requires FieldOk(f)
    ensures ReadField(KindOf(f), EncField(f) + k) == Ok((f, k))
  {
    match f
    case FInt(width, v) =>
      assert PutInt(width, v, k) == EncField(f) + k;
    case FStr(s) =>
      assert PutStr(s, k) == EncField(f) + k;
    case FRaw(data) =>
  }

  lemma {:induction false} ReadFieldInverse(k: Kind, b: Bytes)
    requires ReadField(k, b).Ok?
    ensures var (f, rest) := ReadField(k, b).value; b == EncField(f) + rest
  {
    match k
    case KInt(width) => ReadIntInverse(width, b);
    case KStr => ReadStrInverse(b);
    case KRaw(count) =>
  }

  /** Reading undoes writing, whatever follows. */
  lemma {:induction false} ReadFieldsOfEncoding(fs: seq<Field>, ks: seq<Kind>, k: Bytes)
    requires Match(fs, ks)
    ensures ReadFields(ks, EncFields(fs) + k) == Ok((fs, k))
  {
    if fs == [] {
      assert EncFields(fs) + k == k;
    } else {
      var rest := EncFields(fs[1..]) + k;
      assert EncFields(fs) + k == EncField(fs[0]) + rest;
      ReadFieldOfEncoding(fs[0], rest);
      ReadFieldsOfEncoding(fs[1..], ks[1..], k);
      assert [fs[0]] + fs[1..] == fs;
    }
  }

  /** Writing undoes reading: a field list is read from its own encoding only. */
  lemma {:induction false} ReadFieldsInverse(ks: seq<Kind>, b: Bytes)
    requires ReadFields(ks, b).Ok?
    ensures var (fs, rest) := ReadFields(ks, b).value; b == EncFields(fs) + rest
  {
    if ks != [] {
      var (f, b1) := ReadField(ks[0], b).value;
      ReadFieldInverse(ks[0], b);
      ReadFieldsInverse(ks[1..], b1);
      var (fs, b2) := ReadFields(ks[1..], b1).value;
      assert ([f] + fs)[1..] == fs;
      assert EncField(f) + (EncFields(fs) + b2) == EncField(f) + EncFields(fs) + b2;
    }
  }

  lemma {:induction false} EncFieldsAppend(fs: seq<Field>, gs: seq<Field>)
    ensures EncFields(fs + gs) == EncFields(fs) + EncFields(gs)
  {
    hide EncField;
    if fs == [] {
      assert fs + gs == gs;
    } else {
      assert (fs + gs)[1..] == fs[1..] + gs;
      EncFieldsAppend(fs[1..], gs);
      Associative(EncField(fs[0]), EncFields(fs[1..]), EncFields(gs));
    }
  }

  lemma {:induction false} EncFieldsSnoc(fs: seq<Field>, f: Field)
    ensures EncFields(fs + [f]) == EncFields(fs) + EncField(f)
  {
    EncFieldsAppend(fs, [f]);
    assert EncFields([f]) == EncField(f) + EncFields([]);
  }

  /** A record holds each of its strings whole. */
  lemma {:induction false} EncFieldsHolds(fs: seq<Field>, i: nat)
    requires i < |fs|
    ensures |EncField(fs[i])| <= |EncFields(fs)|
  {
    if i > 0 {
      EncFieldsHolds(fs[1..], i - 1);
    }
  }

  /** What has been read so far, in front of what reading the rest gives. */
  function Prepend<T>(done: seq<T>, r: Outcome<(seq<T>, Bytes)>): Outcome<(seq<T>, Bytes)> {
    var (more, rest) :- r;
    Ok((done + more, rest))
  }

  lemma {:induction false} PrependNothing<T>(r: Outcome<(seq<T>, Bytes)>)
    ensures Prepend([], r) == r
  {
    assert r.Ok? ==> [] + r.value.0 == r.value.0;
  }

  lemma {:induction false} PrependTwice<T>(done: seq<T>, x: T, r: Outcome<(seq<T>, Bytes)>)
    ensures Prepend(done, Prepend([x], r)) == Prepend(done + [x], r)
  {
    if r.Ok? {
      assert done + ([x] + r.value.0) == done + [x] + r.value.0;
    }
  }

  /** Reading a list in steps: after the first `|done|` fields, `b` is what is left to read. */
  ghost predicate ReadSoFar(ks: seq<Kind>, all: Bytes, done: seq<Field>, b: Bytes) {
    |done| <= |ks| && ReadFields(ks, all) == Prepend(done, ReadFields(ks[|done|..], b))
  }

  lemma {:induction false} ReadStep(ks: seq<Kind>, all: Bytes, done: seq<Field>, b: Bytes)
    requires ReadSoFar(ks, all, done, b) && |done| < |ks|
    ensures var r := ReadField(ks[|done|], b);
            if r.Ok? then ReadSoFar(ks, all, done + [r.value.0], r.value.1) else ReadFields(ks, all) == Throw(r.error)
  {
    var r := ReadField(ks[|done|], b);
    if r.Ok? {
      var (f, b1) := r.value;
      ReadFirst(ks[|done|..], b, f, b1);
      assert ks[|done|..][1..] == ks[|done| + 1..];
      PrependTwice(done, f, ReadFields(ks[|done| + 1..], b1));
    }
  }

  lemma {:induction false} ReadFirst(ks: seq<Kind>, b: Bytes, f: Field, b1: Bytes)
    requires ks != [] && ReadField(ks[0], b) == Ok((f, b1))
    ensures ReadFields(ks, b) == Prepend([f], ReadFields(ks[1..], b1))
  {
  }

  // ---------------------------------------------------------------- stat records

  /** The size computed before a stat is written: every field, without the size field itself. */
  function StatSize(s: Stat): nat {
    2 + 4 + 13 + 4 + 4 + 4 + 8 + (2 + |s.name|) + (2 + |s.uid|) + (2 + |s.gid|) + (2 + |s.muid|)
  }

  /** A stat whose 16-bit size field can hold its size. */
  predicate StatOk(s: Stat) { StatSize(s) < 0x1_0000 }

  function StatHead(s: Stat): seq<Field> {
    [FInt(2, s.typ), FInt(4, s.dev), FInt(1, s.qid.typ), FInt(4, s.qid.vers), FInt(8, s.qid.path),
     FInt(4, s.mode), FInt(4, s.atime), FInt(4, s.mtime), FInt(8, s.length)]
  }

  // The same fields, appended one by one.
  function WithQid(fs: seq<Field>, q: Qid): seq<Field> {
    fs + [FInt(1, q.typ)] + [FInt(4, q.vers)] + [FInt(8, q.path)]
  }

  function WithStatHead(fs: seq<Field>, s: Stat): seq<Field> {
    WithQid(fs + [FInt(2, s.typ)] + [FInt(4, s.dev)], s.qid)
    + [FInt(4, s.mode)] + [FInt(4, s.atime)] + [FInt(4, s.mtime)] + [FInt(8, s.length)]
  }

  lemma {:induction false} StatHeadInSteps(fs: seq<Field>, s: Stat)
    ensures WithStatHead(fs, s) == fs + StatHead(s)
  {
  }

  function StatFields(s: Stat): seq<Field> {
    StatHead(s) + [FStr(s.name), FStr(s.uid), FStr(s.gid), FStr(s.muid)]
  }

  const STAT_KINDS: seq<Kind> :=
    [KInt(2), KInt(4), KInt(1), KInt(4), KInt(8), KInt(4), KInt(4), KInt(4), KInt(8), KStr, KStr, KStr, KStr]

  function StatOf(fs: seq<Field>): Stat
    requires Match(fs, STAT_KINDS)
  {
    assert forall i :: 0 <= i < 13 ==> KindOf(fs[i]) == STAT_KINDS[i];
    Stat(fs[0].v, fs[1].v, Qid(fs[2].v, fs[3].v, fs[4].v), fs[5].v, fs[6].v, fs[7].v, fs[8].v,
         fs[9].s, fs[10].s, fs[11].s, fs[12].s)
  }

  function ReadStatBody(b: Bytes): (r: Outcome<(Stat, Bytes)>)
    ensures r.Throw? ==> r.error == BufferOverrun
  {
    var (fs, rest) :- ReadFields(STAT_KINDS, b);
    Ok((StatOf(fs), rest))
  }

  /** What parseRawRStat computes: the declared size cuts an unchecked view, the fields are read inside it,
      and whatever the view holds beyond them is skipped. */
  function ReadRawStat(b: Bytes): (r: Outcome<(Stat, Bytes)>)
    ensures r.Ok? ==> |b| >= 2 && |r.value.1| + 2 + LeValue(b[..2]) == |b|
    ensures r == Throw(Undefined) <==> |b| >= 2 && |b| < 2 + LeValue(b[..2])
    ensures r.Throw? ==> r.error in {BufferOverrun, Undefined}
  {
    var (size, b1) :- ReadInt(2, b);
    if |b1| < size then Throw(Undefined)
    else
      var (stat, unused) :- ReadStatBody(b1[..size]);
      Ok((stat, b1[size..]))
  }

  /** A stat record as stat(5) lays it out: its size in 16 bits, then its fields. */
  function EncStat(s: Stat): (b: Bytes)
    ensures |b| == 2 + StatSize(s)
  {
    StatSizeIsExact(s);
    LeBytes(StatSize(s), 2) + EncFields(StatFields(s))
  }

  /** The size computed ahead is the number of bytes then written. */
  lemma {:induction false} StatSizeIsExact(s: Stat)
    ensures |EncFields(StatFields(s))| == StatSize(s)
  {
    EncFieldsAppend(StatHead(s), [FStr(s.name), FStr(s.uid), FStr(s.gid), FStr(s.muid)]);
    var h := StatHead(s);
    EncFieldsAppend(h[..4], h[4..]);
    assert h == h[..4] + h[4..];
    Enc4(h[..4]);
    Enc4(h[4..8]);
    EncFieldsAppend(h[4..8], h[8..]);
    assert h[4..] == h[4..8] + h[8..];
    assert EncFields(h[8..]) == EncField(h[8]) + EncFields([]);
    Enc4([FStr(s.name), FStr(s.uid), FStr(s.gid), FStr(s.muid)]);
  }

  lemma {:induction false} Enc4(fs: seq<Field>)
    requires |fs| == 4
    ensures EncFields(fs) == EncField(fs[0]) + (EncField(fs[1]) + (EncField(fs[2]) + EncField(fs[3])))
  {
    assert fs[1..][1..] == fs[2..] && fs[2..][1..] == fs[3..] && fs[3..][1..] == [];
    assert EncFields(fs[3..]) == EncField(fs[3]) + [];
    assert EncFields(fs[2..]) == EncField(fs[2]) + EncFields(fs[3..]);
    assert EncFields(fs[1..]) == EncField(fs[1]) + EncFields(fs[2..]);
  }

  lemma {:induction false} StatFieldsMatch(s: Stat)
    requires StrOk(s.name) && StrOk(s.uid) && StrOk(s.gid) && StrOk(s.muid)
    ensures Match(StatFields(s), STAT_KINDS) && StatOf(StatFields(s)) == s
  {
  }

  /** Stat round trip: reading an encoded stat returns it and leaves exactly the bytes that followed it. */
  lemma {:induction false} StatRoundTrip(s: Stat, k: Bytes)
    requires StatOk(s)
    ensures ReadRawStat(EncStat(s) + k) == Ok((s, k))
  {
    StatSizeIsExact(s);
    StatFieldsMatch(s);
    var body := EncFields(StatFields(s));
    ReadFieldsOfEncoding(StatFields(s), STAT_KINDS, []);
    assert body + [] == body;
    assert PutInt(2, StatSize(s), body + k) == EncStat(s) + k;
    assert (body + k)[..StatSize(s)] == body && (body + k)[StatSize(s)..] == k;
  }

  lemma {:induction false} StatOfInverse(fs: seq<Field>)
    requires Match(fs, STAT_KINDS)
    ensures StatFields(StatOf(fs)) == fs
  {
    assert forall i :: 0 <= i < 13 ==> KindOf(fs[i]) == STAT_KINDS[i];
    assert forall i :: 0 <= i < 13 ==> StatFields(StatOf(fs))[i] == fs[i];
  }

  /** Which bytes parse to a stat, exactly: its fields at the front of the view that the declared size cuts, whatever
      else the view holds. */
  lemma {:induction false} StatParsesExactly(b: Bytes, s: Stat, rest: Bytes)
    requires |b| >= 2
    ensures ReadRawStat(b) == Ok((s, rest)) <==>
            var size := LeValue(b[..2]);
            && StatSize(s) <= size <= |b| - 2
            && b[2..2 + StatSize(s)] == EncStat(s)[2..] && rest == b[2 + size..]
  {
    hide EncFields, ReadFields, StatFields;
    var size := LeValue(b[..2]);
    var body := EncFields(StatFields(s));
    StatSizeIsExact(s);
    assert EncStat(s)[2..] == body;
    if size <= |b| - 2 {
      var view := b[2..][..size];
      if ReadRawStat(b) == Ok((s, rest)) {
        ReadFieldsInverse(STAT_KINDS, view);
        var (fs, unused) := ReadFields(STAT_KINDS, view).value;
        StatOfInverse(fs);
        assert view == body + unused;
        assert b[2..2 + StatSize(s)] == view[..StatSize(s)];
      }
      if StatSize(s) <= size && b[2..2 + StatSize(s)] == body && rest == b[2 + size..] {
        LeValueBound(b[..2]);
        StatFieldsMatch(s);
        ReadFieldsOfEncoding(StatFields(s), STAT_KINDS, view[StatSize(s)..]);
        assert view == body + view[StatSize(s)..];
      }
    }
  }
}
