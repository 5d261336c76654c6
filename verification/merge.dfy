/** The completion loop of `getAromeFile`: every finished part is appended to the merged file
    and its part file removed, in the order the downloads finish. */
module Merge {
  import opened Outcomes
  import opened Files

  /** A finished download: the path of its part file and the bytes the provider sent. */
  datatype Part = Part(name: string, data: Bytes)

  /** The bytes of the parts, one after the other. */
  function Contents(parts: seq<Part>): Bytes
  {
    if |parts| == 0 then [] else parts[0].data + Contents(parts[1..])
  }

  /** The paths of the part files. */
  function Names(parts: seq<Part>): set<string>
  {
    set i | 0 <= i < |parts| :: parts[i].name
  }

  /** A part whose file is the merged file and does not fit the write buffer: appending it
      to itself runs away. */
  predicate RunsAwayOn(target: string, part: Part)
  {
    part.name == target && |part.data| > WriteBuffer
  }

  /** One pass of the completion loop as written: the download has left its bytes in the part
      file, which is appended to the merged file and then removed. When the part file IS the
      merged file, a part within the write buffer is appended to itself and the removal then
      deletes the merged file; a larger part runs away, and the `OSError` leaves the loop
      before the removal, with the merged file still there. */
  function CompletePartAsWritten(fs: FileSystem, target: string, part: Part): (r: Effect)
    ensures r.status == Done <==> !RunsAwayOn(target, part)
    ensures r.status.Raised? ==> r.status.error == OSError(target)
    ensures r.status.Raised? ==> r.fs.Keys == fs.Keys + {target} && part.data <= r.fs[target]
    ensures r.status == Done ==> r.fs.Keys == fs.Keys + {target} - {part.name}
    ensures r.status == Done && part.name != target ==> r.fs[target] == ContentOrEmpty(fs, target) + part.data
    ensures forall n :: n in r.fs && n != target ==> r.fs[n] == fs[n]
  {
    var downloaded := fs[part.name := part.data];
    var appended := ConcatenateFile(downloaded, target, part.name);
    if appended.status.Raised? then appended
    else RemoveFile(appended.fs, part.name)
  }

  /** One pass of the completion loop, corrected: a part whose file already is the merged file
      is kept as it is; any other part is appended and its file removed. */
  function CompletePart(fs: FileSystem, target: string, part: Part): (r: FileSystem)
    ensures part.name == target ==> r.Keys == fs.Keys + {target} && r[target] == part.data
    ensures part.name != target ==> r.Keys == fs.Keys + {target} - {part.name}
    ensures part.name != target ==> r[target] == ContentOrEmpty(fs, target) + part.data
    ensures forall n :: n in r && n != target ==> r[n] == fs[n]
  {
    if part.name == target then fs[target := part.data]
    else CompletePartAsWritten(fs, target, part).fs
  }

  /** The completion loop as written, over the parts in the order they finished. An exception
      from a pass leaves the loop, so the later parts are never appended. The loop ends
      normally exactly when no part runs away. */
  function MergeAllAsWritten(fs: FileSystem, target: string, parts: seq<Part>): (r: Effect)
    ensures r.status == Done <==> forall i :: 0 <= i < |parts| ==> !RunsAwayOn(target, parts[i])
    ensures r.status.Raised? ==> r.status.error == OSError(target)
    ensures forall n :: n in r.fs && n != target ==> n in fs && r.fs[n] == fs[n]
    decreases |parts|
  {
    if |parts| == 0 then Effect(fs, Done)
    else
      var step := CompletePartAsWritten(fs, target, parts[0]);
      if step.status.Raised? then step
      else
        var rest := MergeAllAsWritten(step.fs, target, parts[1..]);
        assert forall i :: 1 <= i < |parts| ==> parts[i] == parts[1..][i - 1];
        rest
  }

  /** The corrected completion loop, over the parts in the order they finished. Besides the
      merged file it only ever removes files. */
  function MergeAll(fs: FileSystem, target: string, parts: seq<Part>): (r: FileSystem)
    ensures forall n :: n in r && n != target ==> n in fs && r[n] == fs[n]
    decreases |parts|
  {
    if |parts| == 0 then fs
    else MergeAll(CompletePart(fs, target, parts[0]), target, parts[1..])
  }

  /** The merged file may share its path with a part only when that part is the sole one and
      the merged file is still empty. */
  predicate SafeToMerge(fs: FileSystem, target: string, parts: seq<Part>)
  {
    && target in fs
    && forall i :: 0 <= i < |parts| && parts[i].name == target ==> |parts| == 1 && fs[target] == []
  }

  /** Merging appends every part exactly once, in the order given, removes every part file
      other than the merged file, and touches no other file. */
  lemma MergeAppendsEveryPart(fs: FileSystem, target: string, parts: seq<Part>)
    requires SafeToMerge(fs, target, parts)
    ensures target in MergeAll(fs, target, parts)
    ensures MergeAll(fs, target, parts)[target] == fs[target] + Contents(parts)
    ensures MergeAll(fs, target, parts).Keys == fs.Keys - (Names(parts) - {target})
    ensures forall n :: n in MergeAll(fs, target, parts) && n != target ==> MergeAll(fs, target, parts)[n] == fs[n]
  {
    if |parts| == 1 && parts[0].name == target {
      assert parts[1..] == [];
      assert Names(parts) == {target};
      assert Contents(parts) == parts[0].data + Contents([]);
    } else {
      assert forall i :: 0 <= i < |parts| ==> parts[i].name != target;
      MergeWithoutSelfNamedPart(fs, target, parts);
    }
  }

  lemma MergeWithoutSelfNamedPart(fs: FileSystem, target: string, parts: seq<Part>)
    requires target in fs
    requires forall i :: 0 <= i < |parts| ==> parts[i].name != target
    ensures target in MergeAll(fs, target, parts)
    ensures MergeAll(fs, target, parts)[target] == fs[target] + Contents(parts)
    ensures MergeAll(fs, target, parts).Keys == fs.Keys - Names(parts)
    ensures forall n :: n in MergeAll(fs, target, parts) && n != target ==> MergeAll(fs, target, parts)[n] == fs[n]
  {
    MergedContentWithoutSelfNamedPart(fs, target, parts);
    MergedKeysWithoutSelfNamedPart(fs, target, parts);
  }

  lemma {:induction false} MergedContentWithoutSelfNamedPart(fs: FileSystem, target: string, parts: seq<Part>)
    requires target in fs
    requires forall i :: 0 <= i < |parts| ==> parts[i].name != target
    ensures target in MergeAll(fs, target, parts)
    ensures MergeAll(fs, target, parts)[target] == fs[target] + Contents(parts)
    decreases |parts|
  {
    if |parts| != 0 {
      var next := CompletePart(fs, target, parts[0]);
      var rest := parts[1..];
      CompleteOtherPart(fs, target, parts[0]);
      assert forall i :: 0 <= i < |rest| ==> rest[i].name != target;
      MergedContentWithoutSelfNamedPart(next, target, rest);
      assert MergeAll(fs, target, parts) == MergeAll(next, target, rest);
      assert Contents(parts) == parts[0].data + Contents(rest);
      assert next[target] + Contents(rest) == fs[target] + Contents(parts);
    }
  }

  lemma {:induction false} MergedKeysWithoutSelfNamedPart(fs: FileSystem, target: string, parts: seq<Part>)
    requires target in fs
    requires forall i :: 0 <= i < |parts| ==> parts[i].name != target
    ensures MergeAll(fs, target, parts).Keys == fs.Keys - Names(parts)
    decreases |parts|
  {
    if |parts| == 0 {
      assert Names(parts) == {};
    } else {
      var next := CompletePart(fs, target, parts[0]);
      var rest := parts[1..];
      CompleteOtherPart(fs, target, parts[0]);
      assert forall i :: 0 <= i < |rest| ==> rest[i].name != target;
      MergedKeysWithoutSelfNamedPart(next, target, rest);
      assert MergeAll(fs, target, parts) == MergeAll(next, target, rest);
      NamesOfFirstAndRest(parts);
    }
  }

  /** One corrected pass over a part that is not the merged file. */
  lemma CompleteOtherPart(fs: FileSystem, target: string, part: Part)
    requires target in fs && part.name != target
    ensures target in CompletePart(fs, target, part)
    ensures CompletePart(fs, target, part)[target] == fs[target] + part.data
    ensures CompletePart(fs, target, part).Keys == fs.Keys - {part.name}
  {
  }

  lemma NamesOfFirstAndRest(parts: seq<Part>)
    requires |parts| > 0
    ensures Names(parts) == {parts[0].name} + Names(parts[1..])
  {
    forall n | n in Names(parts) ensures n in {parts[0].name} + Names(parts[1..]) {
      var i :| 0 <= i < |parts| && parts[i].name == n;
      if i > 0 { assert parts[1..][i - 1].name == n; }
    }
    forall n | n in Names(parts[1..]) ensures n in Names(parts) {
      var i :| 0 <= i < |parts[1..]| && parts[1..][i].name == n;
      assert parts[i + 1].name == n;
    }
  }

  /** As long as no part file is the merged file, the loop as written ends normally and
      leaves the same files behind as the corrected loop. */
  lemma {:induction false} AsWrittenAgreesWithoutSelfNamedPart(fs: FileSystem, target: string, parts: seq<Part>)
    requires forall i :: 0 <= i < |parts| ==> parts[i].name != target
    ensures MergeAllAsWritten(fs, target, parts) == Effect(MergeAll(fs, target, parts), Done)
    decreases |parts|
  {
    if |parts| != 0 {
      var step := CompletePartAsWritten(fs, target, parts[0]);
      assert step.fs == CompletePart(fs, target, parts[0]);
      AsWrittenAgreesWithoutSelfNamedPart(step.fs, target, parts[1..]);
    }
  }
}
