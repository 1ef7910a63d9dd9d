/** The layout of every message, byte by byte and in figures, as section 5 of the Plan 9 manual gives it. */
module Layouts {
  import opened Bits
  import opened Wire
  import opened Replies
  import opened Requests
  import MT = MessageTypes

  /** size[4] type[1] tag[2], then the parts. */
  predicate LaidOut(frame: Bytes, octet: byte, tag: Tag, parts: seq<Bytes>) {
    frame == LeBytes(7 + |Concat(parts)|, 4) + ([octet] + (LeBytes(tag, 2) + Concat(parts)))
  }

  /** Integers go least significant byte first. */
  lemma {:induction false} LittleEndian(v: nat)
    ensures LeBytes(v, 1) == [v % 256]
    ensures LeBytes(v, 2) == [v % 256, v / 256 % 256]
    ensures LeBytes(v, 4) == [v % 256, v / 256 % 256, v / 65536 % 256, v / 16777216 % 256]
    ensures LeBytes(v, 8) == LeBytes(v, 4) + LeBytes(v / 4294967296, 4)
  {
    assert Pow256(0) == 1 && Pow256(1) == 256 && Pow256(2) == 65536 && Pow256(3) == 16777216;
    assert Pow256(4) == 4294967296;
    forall i | 4 <= i < 8
      ensures LeBytes(v, 8)[i] == LeBytes(v / 4294967296, 4)[i - 4]
    {
      Pow256Splits(4, i - 4);
      DivDiv(v, 4294967296, Pow256(i - 4));
    }
  }

  lemma {:induction false} Pow256Splits(m: nat, n: nat)
    ensures Pow256(m + n) == Pow256(m) * Pow256(n)
  {
    if m > 0 {
      Pow256Splits(m - 1, n);
      MulAssociative(256, Pow256(m - 1), Pow256(n));
    }
  }

  lemma {:induction false} FieldsAreConcat(fs: seq<Field>, parts: seq<Bytes>)
    requires |fs| == |parts| && forall i :: 0 <= i < |fs| ==> parts[i] == EncField(fs[i])
    ensures EncFields(fs) == Concat(parts)
  {
    if fs != [] {
      FieldsAreConcat(fs[1..], parts[1..]);
    }
  }

  // ---------------------------------------------------------------- stat records

  /** stat(5): size[2], then 39 bytes of numbers, then four strings. */
  lemma {:induction false} StatLayout(s: Stat)
    ensures EncStat(s) == Concat([
              LeBytes(47 + |s.name| + |s.uid| + |s.gid| + |s.muid|, 2), LeBytes(s.typ, 2), LeBytes(s.dev, 4),
              LeBytes(s.qid.typ, 1), LeBytes(s.qid.vers, 4), LeBytes(s.qid.path, 8), LeBytes(s.mode, 4),
              LeBytes(s.atime, 4), LeBytes(s.mtime, 4), LeBytes(s.length, 8), LeBytes(|s.name|, 2) + s.name,
              LeBytes(|s.uid|, 2) + s.uid, LeBytes(|s.gid|, 2) + s.gid, LeBytes(|s.muid|, 2) + s.muid])
  {
    hide EncFields, LeBytes;
    var parts := [
      LeBytes(s.typ, 2), LeBytes(s.dev, 4), LeBytes(s.qid.typ, 1), LeBytes(s.qid.vers, 4), LeBytes(s.qid.path, 8),
      LeBytes(s.mode, 4), LeBytes(s.atime, 4), LeBytes(s.mtime, 4), LeBytes(s.length, 8), LeBytes(|s.name|, 2) + s.name,
      LeBytes(|s.uid|, 2) + s.uid, LeBytes(|s.gid|, 2) + s.gid, LeBytes(|s.muid|, 2) + s.muid];
    FieldsAreConcat(StatFields(s), parts);
    assert ([LeBytes(StatSize(s), 2)] + parts)[1..] == parts;
    assert EncStat(s) == Concat([LeBytes(StatSize(s), 2)] + parts);
  }

  // ---------------------------------------------------------------- requests

  lemma {:induction false} RequestIsLaidOut(tag: Tag, m: Request, parts: seq<Bytes>)
    requires EncFields(HeadFields(m) + TailFields(m)) == Concat(parts)
    ensures LaidOut(Encode(tag, m), Requests.TypeOf(m), tag, parts)
  {
    hide EncFields, HeadFields, TailFields, Requests.TypeOf;
    var rest := HeadFields(m) + TailFields(m);
    LittleEndian(Requests.TypeOf(m));
    assert Preamble(tag, m) + HeadFields(m) + TailFields(m) == [FInt(1, Requests.TypeOf(m))] + ([FInt(2, tag)] + rest);
    EncFieldsCons(FInt(1, Requests.TypeOf(m)), [FInt(2, tag)] + rest);
    EncFieldsCons(FInt(2, tag), rest);
  }

  lemma {:induction false} FieldsAreLaidOut(tag: Tag, m: Request, parts: seq<Bytes>)
    requires var fs := HeadFields(m) + TailFields(m);
             |fs| == |parts| && forall i :: 0 <= i < |fs| ==> parts[i] == EncField(fs[i])
    ensures LaidOut(Encode(tag, m), Requests.TypeOf(m), tag, parts)
  {
    FieldsAreConcat(HeadFields(m) + TailFields(m), parts);
    RequestIsLaidOut(tag, m, parts);
  }

  /** Messages with strings. */
  lemma {:induction false} NamingRequestLayout(tag: Tag, m: Request)
    ensures m.TVersion? ==>
              LaidOut(Encode(tag, m), 100, tag, [LeBytes(m.msize, 4), LeBytes(|m.version|, 2) + m.version])
    ensures m.TAuth? ==>
              LaidOut(Encode(tag, m), 102, tag, [LeBytes(m.afid, 4), LeBytes(|m.uname|, 2) + m.uname,
                                                 LeBytes(|m.aname|, 2) + m.aname])
    ensures m.TAttach? ==>
              LaidOut(Encode(tag, m), 104, tag, [LeBytes(m.fid, 4), LeBytes(m.afid, 4), LeBytes(|m.uname|, 2) + m.uname,
                                                 LeBytes(|m.aname|, 2) + m.aname])
    ensures m.TCreate? ==>
              LaidOut(Encode(tag, m), 114, tag, [LeBytes(m.fid, 4), LeBytes(|m.name|, 2) + m.name, LeBytes(m.perm, 4),
                                                 LeBytes(m.mode, 1)])
  {
    hide LaidOut, LeBytes;
    match m
    case TVersion(msize, version) => FieldsAreLaidOut(tag, m, [LeBytes(msize, 4), LeBytes(|version|, 2) + version]);
    case TAuth(afid, uname, aname) =>
      FieldsAreLaidOut(tag, m, [LeBytes(afid, 4), LeBytes(|uname|, 2) + uname, LeBytes(|aname|, 2) + aname]);
    case TAttach(fid, afid, uname, aname) =>
      FieldsAreLaidOut(tag, m, [LeBytes(fid, 4), LeBytes(afid, 4), LeBytes(|uname|, 2) + uname,
                                LeBytes(|aname|, 2) + aname]);
    case TCreate(fid, name, perm, mode) =>
      FieldsAreLaidOut(tag, m, [LeBytes(fid, 4), LeBytes(|name|, 2) + name, LeBytes(perm, 4), LeBytes(mode, 1)]);
    case _ =>
  }

  /** Messages of a fixed size. */
  lemma {:induction false} FixedRequestLayout(tag: Tag, m: Request)
    ensures m.TFlush? ==> LaidOut(Encode(tag, m), 108, tag, [LeBytes(m.oldtag, 2)])
    ensures m.TOpen? ==> LaidOut(Encode(tag, m), 112, tag, [LeBytes(m.fid, 4), LeBytes(m.mode, 1)])
    ensures m.TRead? ==>
              LaidOut(Encode(tag, m), 116, tag, [LeBytes(m.fid, 4), LeBytes(m.offset, 8), LeBytes(m.count, 4)])
    ensures m.TClunk? ==> LaidOut(Encode(tag, m), 120, tag, [LeBytes(m.fid, 4)])
    ensures m.TRemove? ==> LaidOut(Encode(tag, m), 122, tag, [LeBytes(m.fid, 4)])
    ensures m.TStat? ==> LaidOut(Encode(tag, m), 124, tag, [LeBytes(m.fid, 4)])
  {
    hide LaidOut, LeBytes;
    match m
    case TFlush(oldtag) => FieldsAreLaidOut(tag, m, [LeBytes(oldtag, 2)]);
    case TOpen(fid, mode) => FieldsAreLaidOut(tag, m, [LeBytes(fid, 4), LeBytes(mode, 1)]);
    case TRead(fid, offset, count) =>
      FieldsAreLaidOut(tag, m, [LeBytes(fid, 4), LeBytes(offset, 8), LeBytes(count, 4)]);
    case TClunk(fid) => FieldsAreLaidOut(tag, m, [LeBytes(fid, 4)]);
    case TRemove(fid) => FieldsAreLaidOut(tag, m, [LeBytes(fid, 4)]);
    case TStat(fid) => FieldsAreLaidOut(tag, m, [LeBytes(fid, 4)]);
    case _ =>
  }

  /** Messages with a list of names, with data, with a stat. */
  lemma {:induction false} CountedRequestLayout(tag: Tag, m: Request)
    ensures m.TWalk? ==>
              LaidOut(Encode(tag, m), 110, tag,
                      [LeBytes(m.fid, 4), LeBytes(m.newfid, 4), LeBytes(|m.wnames|, 2)]
                      + seq(|m.wnames|, i requires 0 <= i < |m.wnames| => LeBytes(|m.wnames[i]|, 2) + m.wnames[i]))
    ensures m.TWrite? ==>
              LaidOut(Encode(tag, m), 118, tag, [LeBytes(m.fid, 4), LeBytes(m.offset, 8), LeBytes(|m.data|, 4), m.data])
    ensures m.TWstat? ==> LaidOut(Encode(tag, m), 126, tag, [LeBytes(m.fid, 4), EncStat(m.stat)])
  {
    hide LaidOut, LeBytes;
    match m
    case TWalk(fid, newfid, wnames) =>
      var names := seq(|wnames|, i requires 0 <= i < |wnames| => LeBytes(|wnames[i]|, 2) + wnames[i]);
      FieldsAreLaidOut(tag, m, [LeBytes(fid, 4), LeBytes(newfid, 4), LeBytes(|wnames|, 2)] + names);
    case TWrite(fid, offset, data) =>
      FieldsAreLaidOut(tag, m, [LeBytes(fid, 4), LeBytes(offset, 8), LeBytes(|data|, 4), data]);
    case TWstat(fid, stat) => WstatLayout(tag, fid, stat);
    case _ =>
  }

  lemma {:induction false} WstatLayout(tag: Tag, fid: Fid, stat: Stat)
    ensures LaidOut(Encode(tag, TWstat(fid, stat)), 126, tag, [LeBytes(fid, 4), EncStat(stat)])
  {
    hide LaidOut, LeBytes, StatFields;
    var m, size := TWstat(fid, stat), FInt(2, StatSize(stat));
    EncFieldsCons(FInt(4, fid), [size] + StatFields(stat));
    EncFieldsCons(size, StatFields(stat));
    assert HeadFields(m) + TailFields(m) == [FInt(4, fid)] + ([size] + StatFields(stat));
    Two(LeBytes(fid, 4), EncStat(stat));
    RequestIsLaidOut(tag, m, [LeBytes(fid, 4), EncStat(stat)]);
  }

  lemma {:induction false} BuiltFrameHasItsOctet(cap: nat, tag: Tag, m: Request)
    ensures var frame := Frame(WrittenFields(cap, tag, m)); |frame| >= 7 && frame[4] == Requests.TypeOf(m)
  {
    hide WrittenFields, Requests.TypeOf;
    var typ, fs := Requests.TypeOf(m), WrittenFields(cap, tag, m);
    WrittenBegins(cap, tag, m);
    LittleEndian(typ);
    assert fs == [FInt(1, typ)] + ([FInt(2, tag)] + fs[2..]);
    EncFieldsCons(FInt(1, typ), [FInt(2, tag)] + fs[2..]);
    EncFieldsCons(FInt(2, tag), fs[2..]);
  }

  /** Whatever is dropped or narrowed on the way into the buffer, byte 4 of the frame says which message it is. */
  lemma {:induction false} BuiltFrameSaysItsType(cap: nat, tag: Tag, m: Request)
    ensures var frame := Frame(WrittenFields(cap, tag, m));
            |frame| >= 7 && frame[4] == if m.TVersion? then 100
                                        else if m.TAuth? then 102
                                        else if m.TAttach? then 104
                                        else if m.TFlush? then 108
                                        else if m.TWalk? then 110
                                        else if m.TOpen? then 112
                                        else if m.TCreate? then 114
                                        else if m.TRead? then 116
                                        else if m.TWrite? then 118
                                        else if m.TClunk? then 120
                                        else if m.TRemove? then 122
                                        else if m.TStat? then 124
                                        else 126
  {
    hide WrittenFields;
    BuiltFrameHasItsOctet(cap, tag, m);
  }

  // ---------------------------------------------------------------- what is built, dropped strings included

  /** A string as the builder leaves it in a buffer of `cap` bytes: whole, or not at all. */
  function Written(cap: nat, s: Bytes): Bytes {
    if |s| <= cap && |s| <= 65535 then LeBytes(|s|, 2) + s else []
  }

  lemma {:induction false} StrIsWritten(cap: nat, s: Bytes)
    ensures EncFields(StrFields(cap, s)) == Written(cap, s)
  {
    if Writable(cap, s) {
      EncFieldsCons(FStr(s), []);
      assert [FStr(s)] + [] == [FStr(s)];
    }
  }

  function Flatten(groups: seq<seq<Field>>): seq<Field> {
    if groups == [] then [] else groups[0] + Flatten(groups[1..])
  }

  lemma {:induction false} GroupsAreConcat(groups: seq<seq<Field>>, parts: seq<Bytes>)
    requires |groups| == |parts| && forall i :: 0 <= i < |groups| ==> parts[i] == EncFields(groups[i])
    ensures EncFields(Flatten(groups)) == Concat(parts)
  {
    hide EncFields;
    if groups != [] {
      GroupsAreConcat(groups[1..], parts[1..]);
      EncFieldsAppend(groups[0], Flatten(groups[1..]));
    } else {
      NoFields();
    }
  }

  lemma {:induction false} NoFields()
    ensures EncFields([]) == []
  {
  }

  lemma {:induction false} IntIsWritten(width: nat, v: nat)
    ensures EncFields([FInt(width, v)]) == LeBytes(v, width)
  {
    EncFieldsCons(FInt(width, v), []);
    assert [FInt(width, v)] + [] == [FInt(width, v)];
  }

  /** A built frame is laid out as its groups of fields say. */
  lemma {:induction false} BuiltIsLaidOut(cap: nat, tag: Tag, m: Request, groups: seq<seq<Field>>, parts: seq<Bytes>)
    requires WrittenFields(cap, tag, m) == Preamble(tag, m) + Flatten(groups)
    requires |groups| == |parts| && forall i :: 0 <= i < |groups| ==> parts[i] == EncFields(groups[i])
    ensures LaidOut(Frame(WrittenFields(cap, tag, m)), Requests.TypeOf(m), tag, parts)
  {
    hide EncFields, WrittenFields, Requests.TypeOf;
    var typ, rest := Requests.TypeOf(m), Flatten(groups);
    GroupsAreConcat(groups, parts);
    LittleEndian(typ);
    assert Preamble(tag, m) + rest == [FInt(1, typ)] + ([FInt(2, tag)] + rest);
    EncFieldsCons(FInt(1, typ), [FInt(2, tag)] + rest);
    EncFieldsCons(FInt(2, tag), rest);
  }

  lemma {:induction false} Flatten2(a: seq<Field>, b: seq<Field>)
    ensures Flatten([a, b]) == a + b
  {
    assert [a, b][1..] == [b] && [b][1..] == [];
    assert Flatten([b]) == b + Flatten([]);
  }

  lemma {:induction false} Flatten3(a: seq<Field>, b: seq<Field>, c: seq<Field>)
    ensures Flatten([a, b, c]) == a + b + c
  {
    assert [a, b, c][1..] == [b, c];
    Flatten2(b, c);
  }

  lemma {:induction false} Flatten4(a: seq<Field>, b: seq<Field>, c: seq<Field>, d: seq<Field>)
    ensures Flatten([a, b, c, d]) == a + b + c + d
  {
    assert [a, b, c, d][1..] == [b, c, d];
    Flatten3(b, c, d);
  }

  lemma {:induction false} BuiltVersionLayout(cap: nat, tag: Tag, msize: uint32, version: Bytes)
    ensures LaidOut(Frame(WrittenFields(cap, tag, TVersion(msize, version))), 100, tag,
                    [LeBytes(msize, 4), Written(cap, version)])
  {
    hide LaidOut, LeBytes, Written, StrFields, EncFields, Flatten;
    var m := TVersion(msize, version);
    IntIsWritten(4, msize);
    StrIsWritten(cap, version);
    Flatten2([FInt(4, msize)], StrFields(cap, version));
    assert WrittenFields(cap, tag, m) == Preamble(tag, m) + Flatten([[FInt(4, msize)], StrFields(cap, version)]);
    BuiltIsLaidOut(cap, tag, m, [[FInt(4, msize)], StrFields(cap, version)],
                   [LeBytes(msize, 4), Written(cap, version)]);
  }

  lemma {:induction false} BuiltAuthLayout(cap: nat, tag: Tag, afid: Fid, uname: Bytes, aname: Bytes)
    ensures LaidOut(Frame(WrittenFields(cap, tag, TAuth(afid, uname, aname))), 102, tag,
                    [LeBytes(afid, 4), Written(cap, uname), Written(cap, aname)])
  {
    hide LaidOut, LeBytes, Written, StrFields, EncFields, Flatten;
    var m := TAuth(afid, uname, aname);
    IntIsWritten(4, afid);
    StrIsWritten(cap, uname);
    StrIsWritten(cap, aname);
    Flatten3([FInt(4, afid)], StrFields(cap, uname), StrFields(cap, aname));
    var groups := [[FInt(4, afid)], StrFields(cap, uname), StrFields(cap, aname)];
    assert WrittenFields(cap, tag, m) == Preamble(tag, m) + Flatten(groups);
    BuiltIsLaidOut(cap, tag, m, groups, [LeBytes(afid, 4), Written(cap, uname), Written(cap, aname)]);
  }

  lemma {:induction false} BuiltAttachLayout(cap: nat, tag: Tag, fid: Fid, afid: Fid, uname: Bytes, aname: Bytes)
    ensures LaidOut(Frame(WrittenFields(cap, tag, TAttach(fid, afid, uname, aname))), 104, tag,
                    [LeBytes(fid, 4), LeBytes(afid, 4), Written(cap, uname), Written(cap, aname)])
  {
    hide LaidOut, LeBytes, Written, StrFields, EncFields, Flatten;
    var m := TAttach(fid, afid, uname, aname);
    IntIsWritten(4, fid);
    IntIsWritten(4, afid);
    StrIsWritten(cap, uname);
    StrIsWritten(cap, aname);
    Flatten4([FInt(4, fid)], [FInt(4, afid)], StrFields(cap, uname), StrFields(cap, aname));
    var groups := [[FInt(4, fid)], [FInt(4, afid)], StrFields(cap, uname), StrFields(cap, aname)];
    assert WrittenFields(cap, tag, m) == Preamble(tag, m) + Flatten(groups);
    BuiltIsLaidOut(cap, tag, m, groups,
                   [LeBytes(fid, 4), LeBytes(afid, 4), Written(cap, uname), Written(cap, aname)]);
  }

  lemma {:induction false} BuiltCreateLayout(cap: nat, tag: Tag, fid: Fid, name: Bytes, perm: uint32, mode: uint8)
    ensures LaidOut(Frame(WrittenFields(cap, tag, TCreate(fid, name, perm, mode))), 114, tag,
                    [LeBytes(fid, 4), Written(cap, name), LeBytes(perm, 4), LeBytes(mode, 1)])
  {
    hide LaidOut, LeBytes, Written, StrFields, EncFields, Flatten;
    var m := TCreate(fid, name, perm, mode);
    IntIsWritten(4, fid);
    StrIsWritten(cap, name);
    IntIsWritten(4, perm);
    IntIsWritten(1, mode);
    Flatten4([FInt(4, fid)], StrFields(cap, name), [FInt(4, perm)], [FInt(1, mode)]);
    var groups := [[FInt(4, fid)], StrFields(cap, name), [FInt(4, perm)], [FInt(1, mode)]];
    assert WrittenFields(cap, tag, m) == Preamble(tag, m) + Flatten(groups);
    BuiltIsLaidOut(cap, tag, m, groups,
                   [LeBytes(fid, 4), Written(cap, name), LeBytes(perm, 4), LeBytes(mode, 1)]);
  }

  lemma {:induction false} NamesAreWritten(cap: nat, fs: seq<Field>, wnames: seq<Bytes>)
    ensures EncFields(WithNames(cap, fs, wnames)) ==
            EncFields(fs) + Concat(seq(|wnames|, i requires 0 <= i < |wnames| => Written(cap, wnames[i])))
  {
    hide EncFields, Written, StrFields;
    var parts := seq(|wnames|, i requires 0 <= i < |wnames| => Written(cap, wnames[i]));
    if wnames == [] {
      assert EncFields(fs) + [] == EncFields(fs);
    } else {
      var n := |wnames| - 1;
      NamesAreWritten(cap, fs, wnames[..n]);
      EncFieldsAppend(WithNames(cap, fs, wnames[..n]), StrFields(cap, wnames[n]));
      StrIsWritten(cap, wnames[n]);
      assert parts[..n] == seq(n, i requires 0 <= i < n => Written(cap, wnames[..n][i]));
      ConcatAppend(parts[..n], [parts[n]]);
      One(parts[n]);
      assert parts == parts[..n] + [parts[n]];
      Associative(EncFields(fs), Concat(parts[..n]), parts[n]);
    }
  }

  lemma {:induction false} ConcatAppend(a: seq<Bytes>, b: seq<Bytes>)
    ensures Concat(a + b) == Concat(a) + Concat(b)
  {
    if a == [] {
      assert a + b == b;
    } else {
      assert (a + b)[1..] == a[1..] + b;
      ConcatAppend(a[1..], b);
      Associative(a[0], Concat(a[1..]), Concat(b));
    }
  }

  /** A walk announces its names in 16 bits and holds those that fit. */
  lemma {:induction false} BuiltWalkLayout(cap: nat, tag: Tag, fid: Fid, newfid: Fid, wnames: seq<Bytes>)
    ensures LaidOut(Frame(WrittenFields(cap, tag, TWalk(fid, newfid, wnames))), 110, tag,
                    [LeBytes(fid, 4), LeBytes(newfid, 4), LeBytes(|wnames| % 65536, 2)]
                    + seq(|wnames|, i requires 0 <= i < |wnames| => Written(cap, wnames[i])))
  {
    hide LeBytes, Written, EncFields;
    var m := TWalk(fid, newfid, wnames);
    var head := [FInt(4, fid), FInt(4, newfid), FInt(2, |wnames| % 65536)];
    var ints := [LeBytes(fid, 4), LeBytes(newfid, 4), LeBytes(|wnames| % 65536, 2)];
    var names := seq(|wnames|, i requires 0 <= i < |wnames| => Written(cap, wnames[i]));
    var pre := Preamble(tag, m);
    assert pre + [FInt(4, fid)] + [FInt(4, newfid)] + [FInt(2, |wnames| % 65536)] == pre + head;
    NamesAreWritten(cap, pre + head, wnames);
    EncFieldsAppend(pre, head);
    FieldsAreConcat(head, ints);
    ConcatAppend(ints, names);
    Associative(EncFields(pre), Concat(ints), Concat(names));
    PreambleBytes(tag, m);
    LittleEndian(Requests.TypeOf(m));
  }

  /** The numbers of a stat, behind a size that is narrowed to 16 bits. */
  function StatNumbers(s: Stat): seq<Bytes> {
    [LeBytes((47 + |s.name| + |s.uid| + |s.gid| + |s.muid|) % 65536, 2), LeBytes(s.typ, 2), LeBytes(s.dev, 4),
     LeBytes(s.qid.typ, 1), LeBytes(s.qid.vers, 4), LeBytes(s.qid.path, 8), LeBytes(s.mode, 4), LeBytes(s.atime, 4),
     LeBytes(s.mtime, 4), LeBytes(s.length, 8)]
  }

  lemma {:induction false} StringsAreWritten(cap: nat, fs: seq<Field>, a: Bytes, b: Bytes, c: Bytes, d: Bytes)
    ensures EncFields(fs + StrFields(cap, a) + StrFields(cap, b) + StrFields(cap, c) + StrFields(cap, d)) ==
            EncFields(fs) + Concat([Written(cap, a), Written(cap, b), Written(cap, c), Written(cap, d)])
  {
    hide EncFields, StrFields, Written;
    var sa, sb, sc, sd := StrFields(cap, a), StrFields(cap, b), StrFields(cap, c), StrFields(cap, d);
    StrIsWritten(cap, a);
    StrIsWritten(cap, b);
    StrIsWritten(cap, c);
    StrIsWritten(cap, d);
    Flatten4(sa, sb, sc, sd);
    GroupsAreConcat([sa, sb, sc, sd], [Written(cap, a), Written(cap, b), Written(cap, c), Written(cap, d)]);
    EncFieldsAppend(fs, sa + sb + sc + sd);
    assert fs + sa + sb + sc + sd == fs + (sa + sb + sc + sd);
  }

  lemma {:induction false} NumbersAreWritten(fs: seq<Field>, s: Stat)
    ensures EncFields(WithStatHead(fs + [FInt(2, StatSize(s) % 0x1_0000)], s)) == EncFields(fs) + Concat(StatNumbers(s))
  {
    hide EncFields, LeBytes;
    var size := FInt(2, StatSize(s) % 0x1_0000);
    StatHeadInSteps(fs + [size], s);
    assert fs + [size] + StatHead(s) == fs + ([size] + StatHead(s));
    EncFieldsAppend(fs, [size] + StatHead(s));
    FieldsAreConcat([size] + StatHead(s), StatNumbers(s));
  }

  /** A stat is written under the fid with all its numbers and the strings that fit. */
  lemma {:induction false} BuiltWstatLayout(cap: nat, tag: Tag, fid: Fid, stat: Stat)
    ensures LaidOut(Frame(WrittenFields(cap, tag, TWstat(fid, stat))), 126, tag,
                    [LeBytes(fid, 4)] + (StatNumbers(stat) + [Written(cap, stat.name), Written(cap, stat.uid),
                                                              Written(cap, stat.gid), Written(cap, stat.muid)]))
  {
    hide LeBytes, Written, EncFields, StatNumbers, WithStatHead, StrFields;
    var m := TWstat(fid, stat);
    var pre, numbers := Preamble(tag, m), StatNumbers(stat);
    var strings := [Written(cap, stat.name), Written(cap, stat.uid), Written(cap, stat.gid), Written(cap, stat.muid)];
    var fs := pre + [FInt(4, fid)];
    NumbersAreWritten(fs, stat);
    StringsAreWritten(cap, WithStatHead(fs + [FInt(2, StatSize(stat) % 0x1_0000)], stat),
                      stat.name, stat.uid, stat.gid, stat.muid);
    EncFieldsAppend(pre, [FInt(4, fid)]);
    IntIsWritten(4, fid);
    ConcatAppend(numbers, strings);
    ConcatAppend([LeBytes(fid, 4)], numbers + strings);
    One(LeBytes(fid, 4));
    PreambleBytes(tag, m);
    LittleEndian(Requests.TypeOf(m));
    FourParts(EncFields(pre), LeBytes(fid, 4), Concat(numbers), Concat(strings));
  }

  lemma {:induction false} FourParts(a: Bytes, b: Bytes, c: Bytes, d: Bytes)
    ensures a + b + c + d == a + (b + (c + d))
  {
  }

  lemma {:induction false} PreambleBytes(tag: Tag, m: Request)
    ensures EncFields(Preamble(tag, m)) == LeBytes(Requests.TypeOf(m), 1) + LeBytes(tag, 2)
  {
    EncFieldsCons(FInt(1, Requests.TypeOf(m)), [FInt(2, tag)]);
    IntIsWritten(2, tag);
    assert [FInt(1, Requests.TypeOf(m))] + [FInt(2, tag)] == Preamble(tag, m);
  }

  // ---------------------------------------------------------------- replies

  /** A message is its type and tag, and its payload from byte 7 on; what its first four bytes say is not looked at. */
  lemma {:induction false} MessageReadsExactly(b: Bytes)
    ensures |b| < 7 ==> ReadMessage(b) == Throw(BufferOverrun)
    ensures |b| >= 7 ==>
              ReadMessage(b) == var p := ReadPayload(b[4], b[7..]);
                                if p.Ok? then Ok((LeValue(b[5..7]), p.value)) else Throw(p.error)
  {
    hide ReadPayload;
    if |b| >= 7 {
      assert b[4..][..1] == [b[4]] && LeValue([b[4]]) == b[4] + 256 * LeValue([]);
      assert b[4..][1..][..2] == b[5..7] && b[4..][1..][2..] == b[7..];
    }
  }

  lemma {:induction false} ReplyIsLaidOut(tag: Tag, p: Payload, parts: seq<Bytes>)
    requires PayloadOk(p) && PutPayload(p) == Concat(parts)
    ensures LaidOut(EncodeReply(tag, p), Replies.TypeOf(p), tag, parts)
  {
    hide PutPayload, Replies.TypeOf;
    LittleEndian(Replies.TypeOf(p));
  }

  /** Replies without a body, and the count of a write. */
  lemma {:induction false} ShortReplyLayout(tag: Tag, p: Payload)
    ensures p.RFlush? ==> LaidOut(EncodeReply(tag, p), 109, tag, [])
    ensures p.RWrite? ==> LaidOut(EncodeReply(tag, p), 119, tag, [LeBytes(p.count, 4)])
    ensures p.RClunk? ==> LaidOut(EncodeReply(tag, p), 121, tag, [])
    ensures p.RRemove? ==> LaidOut(EncodeReply(tag, p), 123, tag, [])
    ensures p.RWstat? ==> LaidOut(EncodeReply(tag, p), 127, tag, [])
  {
    hide LaidOut, LeBytes, EncodeReply;
    if p.RWrite? {
      One(LeBytes(p.count, 4));
      ReplyIsLaidOut(tag, p, [LeBytes(p.count, 4)]);
    } else if p.RFlush? || p.RClunk? || p.RRemove? || p.RWstat? {
      ReplyIsLaidOut(tag, p, []);
    }
  }

  /** Replies with strings, with data, with a stat; the error among them. */
  lemma {:induction false} CountedReplyLayout(tag: Tag, p: Payload)
    requires PayloadOk(p)
    ensures p.RVersion? ==>
              LaidOut(EncodeReply(tag, p), 101, tag, [LeBytes(p.msize, 4), LeBytes(|p.version|, 2) + p.version])
    ensures p.RError? ==> LaidOut(EncodeReply(tag, p), 107, tag, [LeBytes(|p.ename|, 2) + p.ename])
    ensures p.RRead? ==> LaidOut(EncodeReply(tag, p), 117, tag, [LeBytes(|p.data|, 4), p.data])
    ensures p.RStat? ==> LaidOut(EncodeReply(tag, p), 125, tag, [LeBytes(|EncStat(p.stat)|, 2), EncStat(p.stat)])
  {
    hide LaidOut, LeBytes, EncStat, EncodeReply;
    if p.RVersion? {
      Two(LeBytes(p.msize, 4), LeBytes(|p.version|, 2) + p.version);
      ReplyIsLaidOut(tag, p, [LeBytes(p.msize, 4), LeBytes(|p.version|, 2) + p.version]);
    } else if p.RError? {
      One(LeBytes(|p.ename|, 2) + p.ename);
      ReplyIsLaidOut(tag, p, [LeBytes(|p.ename|, 2) + p.ename]);
    } else if p.RRead? {
      Two(LeBytes(|p.data|, 4), p.data);
      ReplyIsLaidOut(tag, p, [LeBytes(|p.data|, 4), p.data]);
    } else if p.RStat? {
      Two(LeBytes(|EncStat(p.stat)|, 2), EncStat(p.stat));
      ReplyIsLaidOut(tag, p, [LeBytes(|EncStat(p.stat)|, 2), EncStat(p.stat)]);
    }
  }

  lemma {:induction false} One(a: Bytes)
    ensures Concat([a]) == a && a + [] == a
  {
    assert Concat([a]) == a + Concat([]);
  }

  lemma {:induction false} Two(a: Bytes, b: Bytes)
    ensures Concat([a, b]) == a + b && b + [] == b
  {
    One(b);
    assert [a, b][1..] == [b];
  }

  /** A qid in 13 bytes: its type, its version, its path. */
  function QidBytes(q: Qid): Bytes {
    LeBytes(q.typ, 1) + LeBytes(q.vers, 4) + LeBytes(q.path, 8)
  }

  lemma {:induction false} PutQidIs(q: Qid, k: Bytes)
    ensures PutQid(q, k) == QidBytes(q) + k
  {
  }

  lemma {:induction false} PutQidsIs(qs: seq<Qid>)
    ensures PutQids(qs, []) == Concat(seq(|qs|, i requires 0 <= i < |qs| => QidBytes(qs[i])))
  {
    var parts := seq(|qs|, i requires 0 <= i < |qs| => QidBytes(qs[i]));
    if qs != [] {
      assert parts[1..] == seq(|qs[1..]|, i requires 0 <= i < |qs[1..]| => QidBytes(qs[1..][i]));
      PutQidsIs(qs[1..]);
      PutQidIs(qs[0], PutQids(qs[1..], []));
    }
  }

  /** The replies that carry qids. */
  lemma {:induction false} QidReplyLayout(tag: Tag, p: Payload)
    requires PayloadOk(p)
    ensures p.RAuth? ==> LaidOut(EncodeReply(tag, p), 103, tag, [QidBytes(p.aqid)])
    ensures p.RAttach? ==> LaidOut(EncodeReply(tag, p), 105, tag, [QidBytes(p.qid)])
    ensures p.RWalk? ==>
              LaidOut(EncodeReply(tag, p), 111, tag,
                      [LeBytes(|p.wqids|, 2)] + seq(|p.wqids|, i requires 0 <= i < |p.wqids| => QidBytes(p.wqids[i])))
    ensures p.ROpen? ==> LaidOut(EncodeReply(tag, p), 113, tag, [QidBytes(p.qid), LeBytes(p.iounit, 4)])
    ensures p.RCreate? ==> LaidOut(EncodeReply(tag, p), 115, tag, [QidBytes(p.qid), LeBytes(p.iounit, 4)])
  {
    hide LaidOut, LeBytes, QidBytes, EncodeReply, PutQid, PutQids;
    match p
    case RAuth(aqid) =>
      PutQidIs(aqid, []);
      One(QidBytes(aqid));
      ReplyIsLaidOut(tag, p, [QidBytes(aqid)]);
    case RAttach(qid) =>
      PutQidIs(qid, []);
      One(QidBytes(qid));
      ReplyIsLaidOut(tag, p, [QidBytes(qid)]);
    case RWalk(wqids) =>
      var parts := seq(|wqids|, i requires 0 <= i < |wqids| => QidBytes(wqids[i]));
      PutQidsIs(wqids);
      assert ([LeBytes(|wqids|, 2)] + parts)[1..] == parts;
      ReplyIsLaidOut(tag, p, [LeBytes(|wqids|, 2)] + parts);
    case ROpen(qid, iounit) =>
      QidIounitIs(qid, iounit);
      ReplyIsLaidOut(tag, p, [QidBytes(qid), LeBytes(iounit, 4)]);
    case RCreate(qid, iounit) =>
      QidIounitIs(qid, iounit);
      ReplyIsLaidOut(tag, p, [QidBytes(qid), LeBytes(iounit, 4)]);
    case _ =>
  }

  lemma {:induction false} QidIounitIs(qid: Qid, iounit: uint32)
    ensures PutQid(qid, PutInt(4, iounit, [])) == Concat([QidBytes(qid), LeBytes(iounit, 4)])
  {
    hide LeBytes, QidBytes;
    PutQidIs(qid, PutInt(4, iounit, []));
    Two(QidBytes(qid), LeBytes(iounit, 4));
  }
}
