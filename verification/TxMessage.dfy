/** The transmit buffer: a fixed array written through a cursor, the length prefix patched last. */
module TxMessages {
  import opened Bits
  import opened Wire
  import opened Requests
  import MT = MessageTypes

  class TxMessage {
    const buffer: array<byte>
    var cursor: nat

    /** What has been written since `Initialize`, field by field. */
    ghost var fields: seq<Field>

    ghost predicate Valid()
      reads this, buffer
    {
      && 4 <= cursor <= buffer.Length < 0x8000_0000
      && buffer[4..cursor] == EncFields(fields)
    }

    constructor (capacity: nat)
      requires 4 <= capacity < 0x8000_0000
      ensures Valid() && fresh(buffer) && buffer.Length == capacity && fields == []
    {
      buffer := new byte[capacity];
      cursor := 4;
      fields := [];
    }

    /** The write frame: nothing beyond the cursor changes, nor does the place of the length prefix. */
    twostate predicate WroteOnly()
      reads this, buffer
    {
      && old(cursor) <= cursor <= buffer.Length
      && forall j :: 0 <= j < buffer.Length && !(old(cursor) <= j < cursor) ==> buffer[j] == old(buffer[j])
    }

    method Initialize(typ: uint8)
      requires 5 <= buffer.Length < 0x8000_0000
      modifies this, buffer
      ensures Valid() && fields == [FInt(1, typ)] && cursor == 5
      ensures forall j :: 0 <= j < buffer.Length && j != 4 ==> buffer[j] == old(buffer[j])
    {
      cursor := 4;
      fields := [];
      WriteInteger(1, typ);
    }

    /** writeInteger<T> with sizeof(T) == width: one byte at a time, by shift and mask. No room is checked. */
    method WriteInteger(width: nat, value: nat)
      requires Valid() && value < Pow256(width) && cursor + width <= buffer.Length
      modifies this, buffer
      ensures Valid() && fields == old(fields) + [FInt(width, value)] && cursor == old(cursor) + width
      ensures WroteOnly()
    {
      EmitInteger(width, value);
      EncFieldsSnoc(fields, FInt(width, value));
      fields := fields + [FInt(width, value)];
    }

    method EmitInteger(width: nat, value: nat)
      requires 4 <= cursor && cursor + width <= buffer.Length
      modifies this`cursor, buffer
      ensures cursor == old(cursor) + width
      ensures buffer[4..cursor] == old(buffer[4..cursor]) + LeBytes(value, width)
      ensures WroteOnly()
    {
      WriteLowEndianInteger(width, value, cursor);
      cursor := cursor + width;
      assert buffer[4..cursor] == buffer[4..cursor - width] + buffer[cursor - width..cursor];
    }

    method WriteLowEndianInteger(width: nat, value: nat, at: nat)
      requires at + width <= buffer.Length
      modifies buffer
      ensures buffer[at..at + width] == LeBytes(value, width)
      ensures forall j :: 0 <= j < buffer.Length && !(at <= j < at + width) ==> buffer[j] == old(buffer[j])
    {
      for i := 0 to width
        invariant forall j :: 0 <= j < i ==> buffer[at + j] == LeBytes(value, width)[j]
        invariant forall j :: 0 <= j < buffer.Length && !(at <= j < at + i) ==> buffer[j] == old(buffer[j])
      {
        LowByte(value, i);
        buffer[at + i] := And(ShiftRight(value, 8 * i), 0xff);
      }
    }

    method WriteRawData(data: Bytes)
      requires Valid() && cursor + |data| <= buffer.Length
      modifies this, buffer
      ensures Valid() && fields == old(fields) + [FRaw(data)] && cursor == old(cursor) + |data|
      ensures WroteOnly()
    {
      CopyIn(data);
      EncFieldsSnoc(fields, FRaw(data));
      fields := fields + [FRaw(data)];
    }

    /** memcpy at the cursor. */
    method CopyIn(data: Bytes)
      requires 4 <= cursor && cursor + |data| <= buffer.Length
      modifies this`cursor, buffer
      ensures cursor == old(cursor) + |data| && buffer[4..cursor] == old(buffer[4..cursor]) + data
      ensures WroteOnly()
    {
      forall i | 0 <= i < |data| {
        buffer[cursor + i] := data[i];
      }
      cursor := cursor + |data|;
    }

    /** A string that the whole buffer or the 16-bit length cannot hold is dropped without a sign. */
    method WriteString(str: Bytes)
      requires Valid() && cursor + StrSize(buffer.Length, str) <= buffer.Length
      modifies this, buffer
      ensures Valid() && fields == old(fields) + StrFields(buffer.Length, str)
      ensures cursor == old(cursor) + StrSize(buffer.Length, str)
      ensures if |str| <= buffer.Length && |str| <= 65535
              then fields == old(fields) + [FStr(str)] && cursor == old(cursor) + 2 + |str|
              else fields == old(fields) && cursor == old(cursor)
      ensures WroteOnly()
    {
      if !HasRoomFor(|str|) || |str| > 0xFFFF {
        return;
      }
      EmitInteger(2, |str|);
      CopyIn(str);
      EncFieldsSnoc(fields, FStr(str));
      Associative(EncFields(fields), LeBytes(|str|, 2), str);
      fields := fields + [FStr(str)];
    }

    /** Measured from the start of the buffer, not from the cursor. */
    predicate HasRoomFor(count: nat) {
      count <= buffer.Length
    }

    /** The finished frame. Only now are the first four bytes written. */
    method GetData() returns (data: Bytes)
      requires Valid()
      modifies buffer
      ensures Valid() && data == Frame(fields) == buffer[..cursor]
      ensures forall j :: 4 <= j < buffer.Length ==> buffer[j] == old(buffer[j])
    {
      WriteLowEndianInteger(4, cursor, 0);
      assert buffer[4..cursor] == old(buffer[4..cursor]);
      data := buffer[..cursor];
      assert data == buffer[0..4] + buffer[4..cursor];
    }
  }

  /** Writes one message at a time into the buffer it was given. */
  class TxMessageBuilder {
    const tx: TxMessage

    constructor (tx: TxMessage)
      ensures this.tx == tx
    {
      this.tx := tx;
    }

    /** A message under construction: exactly the fields the builder writes for `m`, nothing outside them. */
    twostate predicate Built(tag: Tag, m: Request)
      reads tx, tx.buffer
    {
      && tx.Valid() && tx.fields == WrittenFields(tx.buffer.Length, tag, m)
      && forall j :: 0 <= j < tx.buffer.Length && !(4 <= j < tx.cursor) ==> tx.buffer[j] == old(tx.buffer[j])
    }

    method Begin(typ: uint8, tag: Tag)
      requires 7 <= tx.buffer.Length < 0x8000_0000
      modifies tx, tx.buffer
      ensures tx.Valid() && tx.fields == [FInt(1, typ), FInt(2, tag)] && tx.cursor == 7
      ensures forall j :: 0 <= j < tx.buffer.Length && !(4 <= j < tx.cursor) ==> tx.buffer[j] == old(tx.buffer[j])
    {
      tx.Initialize(typ);
      tx.WriteInteger(2, tag);
    }

    method BuildTVersion(msize: uint32, version: Bytes)
      requires 11 + StrSize(tx.buffer.Length, version) <= tx.buffer.Length < 0x8000_0000
      modifies tx, tx.buffer
      ensures Built(NOTAG, TVersion(msize, version))
      ensures tx.cursor == 11 + StrSize(tx.buffer.Length, version)
    {
      Begin(MT.T_VERSION, NOTAG);
      tx.WriteInteger(4, msize);
      tx.WriteString(version);
    }

    method BuildTAuth(tag: Tag, afid: Fid, uname: Bytes, aname: Bytes)
      requires tx.buffer.Length < 0x8000_0000
      requires 11 + StrSize(tx.buffer.Length, uname) + StrSize(tx.buffer.Length, aname) <= tx.buffer.Length
      modifies tx, tx.buffer
      ensures Built(tag, TAuth(afid, uname, aname))
      ensures tx.cursor == 11 + StrSize(tx.buffer.Length, uname) + StrSize(tx.buffer.Length, aname)
    {
      Begin(MT.T_AUTH, tag);
      tx.WriteInteger(4, afid);
      tx.WriteString(uname);
      tx.WriteString(aname);
    }

    method BuildTFlush(tag: Tag, oldtag: Tag)
      requires 9 <= tx.buffer.Length < 0x8000_0000
      modifies tx, tx.buffer
      ensures Built(tag, TFlush(oldtag)) && tx.cursor == 9
    {
      Begin(MT.T_FLUSH, tag);
      tx.WriteInteger(2, oldtag);
    }

    method BuildTAttach(tag: Tag, fid: Fid, afid: Fid, uname: Bytes, aname: Bytes)
      requires tx.buffer.Length < 0x8000_0000
      requires 15 + StrSize(tx.buffer.Length, uname) + StrSize(tx.buffer.Length, aname) <= tx.buffer.Length
      modifies tx, tx.buffer
      ensures Built(tag, TAttach(fid, afid, uname, aname))
      ensures tx.cursor == 15 + StrSize(tx.buffer.Length, uname) + StrSize(tx.buffer.Length, aname)
    {
      Begin(MT.T_ATTACH, tag);
      tx.WriteInteger(4, fid);
      tx.WriteInteger(4, afid);
      tx.WriteString(uname);
      tx.WriteString(aname);
    }

    method BuildTWalk(tag: Tag, fid: Fid, newfid: Fid, wnames: seq<Bytes>)
      requires 17 + NamesSize(tx.buffer.Length, wnames) <= tx.buffer.Length < 0x8000_0000
      modifies tx, tx.buffer
      ensures Built(tag, TWalk(fid, newfid, wnames))
      ensures tx.cursor == 17 + NamesSize(tx.buffer.Length, wnames)
    {
      Begin(MT.T_WALK, tag);
      tx.WriteInteger(4, fid);
      tx.WriteInteger(4, newfid);
      tx.WriteInteger(2, |wnames| % 0x1_0000);
      ghost var head := tx.fields;
      for i := 0 to |wnames|
        invariant tx.Valid() && tx.cursor == 17 + NamesSize(tx.buffer.Length, wnames[..i])
        invariant tx.fields == WithNames(tx.buffer.Length, head, wnames[..i])
        invariant forall j :: 0 <= j < tx.buffer.Length && !(4 <= j < tx.cursor) ==> tx.buffer[j] == old(tx.buffer[j])
      {
        assert wnames[..i + 1][..i] == wnames[..i];
        NamesSizeGrows(tx.buffer.Length, wnames, i + 1);
        tx.WriteString(wnames[i]);
      }
      assert wnames[..|wnames|] == wnames;
    }

    method BuildTOpen(tag: Tag, fid: Fid, mode: uint8)
      requires 12 <= tx.buffer.Length < 0x8000_0000
      modifies tx, tx.buffer
      ensures Built(tag, TOpen(fid, mode)) && tx.cursor == 12
    {
      Begin(MT.T_OPEN, tag);
      tx.WriteInteger(4, fid);
      tx.WriteInteger(1, mode);
    }

    method BuildTCreate(tag: Tag, fid: Fid, name: Bytes, perm: uint32, mode: uint8)
      requires 16 + StrSize(tx.buffer.Length, name) <= tx.buffer.Length < 0x8000_0000
      modifies tx, tx.buffer
      ensures Built(tag, TCreate(fid, name, perm, mode))
      ensures tx.cursor == 16 + StrSize(tx.buffer.Length, name)
    {
      Begin(MT.T_CREATE, tag);
      tx.WriteInteger(4, fid);
      tx.WriteString(name);
      tx.WriteInteger(4, perm);
      tx.WriteInteger(1, mode);
    }

    method BuildTRead(tag: Tag, fid: Fid, offset: uint64, count: uint32)
      requires 23 <= tx.buffer.Length < 0x8000_0000
      modifies tx, tx.buffer
      ensures Built(tag, TRead(fid, offset, count)) && tx.cursor == 23
    {
      Begin(MT.T_READ, tag);
      tx.WriteInteger(4, fid);
      tx.WriteInteger(8, offset);
      tx.WriteInteger(4, count);
    }

    method BuildTWrite(tag: Tag, fid: Fid, offset: uint64, data: Bytes)
      requires 23 + |data| <= tx.buffer.Length < 0x8000_0000
      modifies tx, tx.buffer
      ensures Built(tag, TWrite(fid, offset, data)) && tx.cursor == 23 + |data|
    {
      Begin(MT.T_WRITE, tag);
      tx.WriteInteger(4, fid);
      tx.WriteInteger(8, offset);
      tx.WriteInteger(4, |data| % 0x1_0000_0000);
      tx.WriteRawData(data);
    }

    method BuildTClunk(tag: Tag, fid: Fid)
      requires 11 <= tx.buffer.Length < 0x8000_0000
      modifies tx, tx.buffer
      ensures Built(tag, TClunk(fid)) && tx.cursor == 11
    {
      Begin(MT.T_CLUNK, tag);
      tx.WriteInteger(4, fid);
    }

    method BuildTRemove(tag: Tag, fid: Fid)
      requires 11 <= tx.buffer.Length < 0x8000_0000
      modifies tx, tx.buffer
      ensures Built(tag, TRemove(fid)) && tx.cursor == 11
    {
      Begin(MT.T_REMOVE, tag);
      tx.WriteInteger(4, fid);
    }

    method BuildTStat(tag: Tag, fid: Fid)
      requires 11 <= tx.buffer.Length < 0x8000_0000
      modifies tx, tx.buffer
      ensures Built(tag, TStat(fid)) && tx.cursor == 11
    {
      Begin(MT.T_STAT, tag);
      tx.WriteInteger(4, fid);
    }

    method BuildTWstat(tag: Tag, fid: Fid, stat: Stat)
      requires 13 + WrittenStatSize(tx.buffer.Length, stat) <= tx.buffer.Length < 0x8000_0000
      modifies tx, tx.buffer
      ensures Built(tag, TWstat(fid, stat))
      ensures tx.cursor == 13 + WrittenStatSize(tx.buffer.Length, stat)
    {
      Begin(MT.T_WSTAT, tag);
      tx.WriteInteger(4, fid);
      WriteStat(stat);
    }

    method WriteStat(stat: Stat)
      requires tx.Valid() && tx.cursor + 2 + WrittenStatSize(tx.buffer.Length, stat) <= tx.buffer.Length
      modifies tx, tx.buffer
      ensures tx.Valid() && tx.cursor == old(tx.cursor) + 2 + WrittenStatSize(tx.buffer.Length, stat)
      ensures tx.fields == WithStat(tx.buffer.Length, old(tx.fields), stat)
      ensures tx.WroteOnly()
    {
      tx.WriteInteger(2, StatSize(stat) % 0x1_0000);
      WriteStatHead(stat);
      tx.WriteString(stat.name);
      tx.WriteString(stat.uid);
      tx.WriteString(stat.gid);
      tx.WriteString(stat.muid);
    }

    /** The fixed-width fields of a stat. */
    method WriteStatHead(stat: Stat)
      requires tx.Valid() && tx.cursor + 39 <= tx.buffer.Length
      modifies tx, tx.buffer
      ensures tx.Valid() && tx.cursor == old(tx.cursor) + 39 && tx.fields == WithStatHead(old(tx.fields), stat)
      ensures tx.WroteOnly()
    {
      tx.WriteInteger(2, stat.typ);
      tx.WriteInteger(4, stat.dev);
      WriteQid(stat.qid);
      tx.WriteInteger(4, stat.mode);
      tx.WriteInteger(4, stat.atime);
      tx.WriteInteger(4, stat.mtime);
      tx.WriteInteger(8, stat.length);
    }

    method WriteQid(qid: Qid)
      requires tx.Valid() && tx.cursor + 13 <= tx.buffer.Length
      modifies tx, tx.buffer
      ensures tx.Valid() && tx.cursor == old(tx.cursor) + 13
      ensures tx.fields == WithQid(old(tx.fields), qid)
      ensures tx.WroteOnly()
    {
      tx.WriteInteger(1, qid.typ);
      tx.WriteInteger(4, qid.vers);
      tx.WriteInteger(8, qid.path);
    }
  }

  function WrittenStatSize(cap: nat, s: Stat): nat {
    39 + StrSize(cap, s.name) + StrSize(cap, s.uid) + StrSize(cap, s.gid) + StrSize(cap, s.muid)
  }

  function NamesSize(cap: nat, wnames: seq<Bytes>): nat {
    if wnames == [] then 0
    else NamesSize(cap, wnames[..|wnames| - 1]) + StrSize(cap, wnames[|wnames| - 1])
  }

  lemma {:induction false} NamesSizeGrows(cap: nat, wnames: seq<Bytes>, i: nat)
    requires i <= |wnames|
    ensures NamesSize(cap, wnames[..i]) <= NamesSize(cap, wnames)
  {
    if i < |wnames| {
      assert wnames[..|wnames| - 1][..i] == wnames[..i];
      NamesSizeGrows(cap, wnames[..|wnames| - 1], i);
    } else {
      assert wnames[..i] == wnames;
    }
  }
}
