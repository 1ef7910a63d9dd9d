/** The client's table of fids. */
module FidTrackers {
  import opened Wrappers
  import opened Wire

  datatype FidEntry = FidEntry(fid: Fid, wnames: seq<Bytes>, qid: Qid)

  class FidTracker {
    var root: Option<FidEntry>
    var entries: seq<FidEntry>

    constructor ()
      ensures root == None && entries == []
    {
      root, entries := None, [];
    }

    method SetRoot(fid: Fid, qid: Qid)
      modifies this`root
      ensures root == Some(FidEntry(fid, [], qid))
    {
      root := Some(FidEntry(fid, [], qid));
    }

    method AddFid(fid: Fid, wnames: seq<Bytes>, qid: Qid)
      modifies this`entries
      ensures entries == old(entries) + [FidEntry(fid, wnames, qid)]
    {
      entries := entries + [FidEntry(fid, wnames, qid)];
    }

    /** The first entry added for the fid. */
    method FindEntry(fid: Fid) returns (r: Option<FidEntry>)
      ensures r == None ==> forall i :: 0 <= i < |entries| ==> entries[i].fid != fid
      ensures r.Some? ==> exists i :: 0 <= i < |entries| && r.value == entries[i] && entries[i].fid == fid
                                      && forall j :: 0 <= j < i ==> entries[j].fid != fid
    {
      for i := 0 to |entries|
        invariant forall j :: 0 <= j < i ==> entries[j].fid != fid
      {
        if entries[i].fid == fid {
          return Some(entries[i]);
        }
      }
      return None;
    }
  }
}
