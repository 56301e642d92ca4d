/**
 `atomic_write`, the only way the qualification producer and `reconcile-effect` change their records: an exclusively
 created temporary file, written in arbitrary short writes, synced, renamed over the target, and a synced directory.
 */
module AtomicFile {
  import opened Prelude

  /** Where an exception strikes one call, if anywhere. */
  datatype Fault = Intact | DuringWrite | BeforeRename | BeforeSync

  /** The retained record of a run root. */
  const RECOVERY: string := "RECOVERY.json"

  function PartialOf(path: string): (p: string)
    ensures p != path && |p| == |path| + 8
  {
    path + ".partial"
  }

  type Directory = map<string, string>

  /** A path holds these bytes, or does not exist. */
  predicate Shows(d: Directory, path: string, bytes: Option<string>) {
    if bytes.Some? then path in d && d[path] == bytes.value else path !in d
  }

  class RunDirectory {
    var files: Directory
    ghost var durable: Directory           // what survives a power loss
    ghost var seen: seq<Directory>         // every directory state so far

    constructor ()
      ensures Valid() && files == map[] && durable == map[]
    {
      files, durable, seen := map[], map[], [map[]];
    }

    ghost predicate Valid() reads this { seen != [] && seen[|seen| - 1] == files }

    method Put(path: string, data: string)
      requires Valid()
      modifies this`files, this`seen
      ensures Valid() && files == old(files)[path := data] && seen == old(seen) + [files]
    {
      files := files[path := data];
      seen := seen + [files];
    }

    /** Writing the temporary file, up to the end of the data or to the write that raises. */
    method Fill(temporary: string, data: string, complete: bool)
      requires Valid()
      modifies this`files, this`seen
      ensures Valid() && temporary in files && files - {temporary} == old(files) - {temporary}
      ensures complete ==> files[temporary] == data
      ensures Appended(old(seen), seen)
      ensures forall s :: s in seen[|old(seen)|..] ==> s - {temporary} == old(files) - {temporary}
    {
      ghost var start, before := files, seen;
      Put(temporary, "");
      assert seen[|before|..] == [files];
      var end := |data|;
      if !complete {
        end :| 0 <= end <= |data|;
      }
      var written := 0;
      while written < end
        invariant Valid() && written <= end
        invariant temporary in files && files[temporary] == data[..written]
                  && files - {temporary} == start - {temporary}
        invariant Appended(before, seen)
        invariant forall s :: s in seen[|before|..] ==> s - {temporary} == start - {temporary}
        decreases end - written
      {
        var n :| 1 <= n <= end - written;
        ghost var earlier := seen;
        Put(temporary, data[..written + n]);
        assert seen[|before|..] == earlier[|before|..] + [files];
        written := written + n;
      }
      assert data[..|data|] == data;
    }

    ghost predicate Appended(before: seq<Directory>, after: seq<Directory>) {
      |before| <= |after| && after[..|before|] == before
    }

    /** It succeeds exactly without a fault and a leftover temporary file; then the new bytes are durable. */
    method AtomicWrite(path: string, data: string, fault: Fault) returns (ok: bool)
      requires Valid()
      modifies this
      ensures Valid()
      ensures ok <==> PartialOf(path) !in old(files) && fault.Intact?
      ensures PartialOf(path) in old(files) ==> files == old(files) && seen == old(seen)
      ensures PartialOf(path) !in old(files) && (fault.DuringWrite? || fault.BeforeRename?) ==>
                PartialOf(path) in files && files - {PartialOf(path)} == old(files)
      ensures PartialOf(path) !in old(files) && (fault.Intact? || fault.BeforeSync?) ==>
              files == old(files)[path := data]
      ensures durable == if ok then old(durable)[path := data] else old(durable)
      ensures Appended(old(seen), seen)
      ensures forall s :: s in seen[|old(seen)|..] ==>
              s - {PartialOf(path)} == old(files) || s == old(files)[path := data]
    {
      var temporary := PartialOf(path);
      if temporary in files {
        return false;
      }
      ghost var start, before := files, seen;
      assert start - {temporary} == start;
      Fill(temporary, data, !fault.DuringWrite?);
      if fault.DuringWrite? || fault.BeforeRename? {
        return false;
      }
      ghost var earlier := seen;
      files := (files - {temporary})[path := files[temporary]];
      seen := seen + [files];
      assert seen[|before|..] == earlier[|before|..] + [files];
      if fault.BeforeSync? {
        return false;
      }
      durable := durable[path := data];
      ok := true;
    }
  }
}
