/** `getAromeFile`: validate the requested range, name and create the merged file, then merge
    the downloaded parts in the order they finish. */
module Arome {
  import opened Outcomes
  import opened Strings
  import opened TimeRanges
  import opened Parameters
  import opened FileNames
  import opened Files
  import opened Merge

  /** The path the download of `timeFrame` writes its part to. */
  function PartFileName(day: string, max: string, home: string, timeFrame: string): string
  {
    CreateFileName(DownloadParameters(RunParameters(day, max), timeFrame), home).value
  }

  /** The path of the merged file: the run's own file name with every occurrence of `max`
      replaced by the target range. */
  function TargetFileName(day: string, max: string, home: string): string
  {
    ReplaceAll(CreateFileName(RunParameters(day, max), home).value, max, TargetTimeRange(max))
  }

  /** The finished downloads, in the order they finished; `payload` stands for what the
      provider sends for each time range. */
  function CompletedParts(day: string, max: string, home: string, payload: string -> Bytes,
                          completed: seq<string>): seq<Part>
  {
    seq(|completed|, i requires 0 <= i < |completed| =>
      Part(PartFileName(day, max, home, completed[i]), payload(completed[i])))
  }

  /** The run, with the corrected completion loop. A range outside the catalog raises
      `ValueError` before any file is touched; otherwise the merged file exists afterwards. */
  function GetAromeFile(day: string, max: string, home: string, payload: string -> Bytes,
                        completed: seq<string>, fs: FileSystem): (out: Effect)
    ensures max !in Catalog ==> out.fs == fs && out.status == Raised(ValueError(InvalidRangeMessage(max)))
    ensures max in Catalog ==> out.status == Done && TargetFileName(day, max, home) in out.fs
  {
    match ValidateTimeRange(max)
    case Err(e) => Effect(fs, Raised(e))
    case Ok(_) =>
      var target := TargetFileName(day, max, home);
      var parts := CompletedParts(day, max, home, payload, completed);
      var created := CreateEmpty(fs, target);
      MergeKeepsTarget(created, target, parts);
      Effect(MergeAll(created, target, parts), Done)
  }

  /** The run as written: identical except that every part is appended and then removed. It
      ends normally or with the `OSError` of a part appended to itself. */
  function GetAromeFileAsWritten(day: string, max: string, home: string, payload: string -> Bytes,
                                 completed: seq<string>, fs: FileSystem): (out: Effect)
    ensures max !in Catalog ==> out.fs == fs && out.status == Raised(ValueError(InvalidRangeMessage(max)))
    ensures max in Catalog ==> out.status == Done || out.status == Raised(OSError(TargetFileName(day, max, home)))
  {
    match ValidateTimeRange(max)
    case Err(e) => Effect(fs, Raised(e))
    case Ok(_) =>
      var target := TargetFileName(day, max, home);
      var parts := CompletedParts(day, max, home, payload, completed);
      MergeAllAsWritten(CreateEmpty(fs, target), target, parts)
  }

  /** The merged file survives the corrected loop. */
  lemma {:induction false} MergeKeepsTarget(fs: FileSystem, target: string, parts: seq<Part>)
    requires target in fs
    ensures target in MergeAll(fs, target, parts)
    decreases |parts|
  {
    if |parts| != 0 {
      MergeKeepsTarget(CompletePart(fs, target, parts[0]), target, parts[1..]);
    }
  }

  /** The number of bytes the provider sends for the given ranges. */
  function PayloadSize(payload: string -> Bytes, ranges: seq<string>): nat
  {
    if |ranges| == 0 then 0 else |payload(ranges[0])| + PayloadSize(payload, ranges[1..])
  }

  /** The merged bytes are as long as the payloads of the finished ranges together. */
  lemma {:induction false} ContentsSize(day: string, max: string, home: string, payload: string -> Bytes,
                                        completed: seq<string>)
    ensures |Contents(CompletedParts(day, max, home, payload, completed))| == PayloadSize(payload, completed)
  {
    if |completed| != 0 {
      ContentsSize(day, max, home, payload, completed[1..]);
      assert CompletedParts(day, max, home, payload, completed)[1..]
          == CompletedParts(day, max, home, payload, completed[1..]);
    }
  }

  /** The total payload size does not depend on the order the ranges are listed in. */
  lemma {:induction false} PayloadSizeOfPermutation(payload: string -> Bytes, xs: seq<string>, ys: seq<string>)
    requires multiset(xs) == multiset(ys)
    ensures PayloadSize(payload, xs) == PayloadSize(payload, ys)
    decreases |xs|
  {
    if |xs| != 0 {
      var x := xs[0];
      assert x in multiset(ys);
      var k :| 0 <= k < |ys| && ys[k] == x;
      var rest := ys[..k] + ys[k + 1..];
      MultisetWithout(ys, k);
      MultisetOfTail(xs);
      PayloadSizeOfPermutation(payload, xs[1..], rest);
      PayloadSizeWithout(payload, ys, k);
      assert PayloadSize(payload, xs) == |payload(x)| + PayloadSize(payload, xs[1..]);
    }
  }

  lemma MultisetOfTail(xs: seq<string>)
    requires |xs| > 0
    ensures multiset(xs[1..]) == multiset(xs) - multiset{xs[0]}
  {
    assert xs == [xs[0]] + xs[1..];
  }

  lemma {:induction false} PayloadSizeWithout(payload: string -> Bytes, ys: seq<string>, k: nat)
    requires k < |ys|
    ensures PayloadSize(payload, ys) == |payload(ys[k])| + PayloadSize(payload, ys[..k] + ys[k + 1..])
  {
    if k != 0 {
      PayloadSizeWithout(payload, ys[1..], k - 1);
      assert ys[1..][..k - 1] + ys[1..][k..] == (ys[..k] + ys[k + 1..])[1..];
    } else {
      assert ys[..k] + ys[k + 1..] == ys[1..];
    }
  }

  /** Dropping one position drops one copy of its element. */
  lemma MultisetWithout(ys: seq<string>, k: nat)
    requires k < |ys|
    ensures multiset(ys[..k] + ys[k + 1..]) == multiset(ys) - multiset{ys[k]}
  {
    assert ys == ys[..k] + [ys[k]] + ys[k + 1..];
    assert multiset(ys) == multiset(ys[..k]) + multiset{ys[k]} + multiset(ys[k + 1..]);
  }

  /** In a list without duplicates every member occurs exactly once. */
  lemma {:induction false} OccursOnce(xs: seq<string>, t: string)
    requires NoDuplicates(xs) && t in xs
    ensures multiset(xs)[t] == 1
  {
    if xs[0] == t {
      assert t !in xs[1..];
    } else {
      OccursOnce(xs[1..], t);
    }
    assert xs == [xs[0]] + xs[1..];
  }

  /** The name every file of a run starts with: home, folder, model, reference time, grid
      and package. It does not depend on the requested range. */
  function RunPrefix(day: string, home: string): string
  {
    NamePrefix(RunParameters(day, FirstRange), home)
  }

  /** A part's path is the run prefix, the part's own range and `.grib2`; the run's file name
      before the replacement is the same with `max` in place of the part's range. */
  lemma RunNames(day: string, max: string, home: string, timeFrame: string)
    ensures CreateFileName(RunParameters(day, max), home).value == RunPrefix(day, home) + max + Extension
    ensures PartFileName(day, max, home, timeFrame) == RunPrefix(day, home) + timeFrame + Extension
    ensures RunPrefix(day, home)[|RunPrefix(day, home)| - 1] == '_'
  {
    var p := RunParameters(day, max);
    var q := DownloadParameters(p, timeFrame);
    var first := RunParameters(day, FirstRange);
    RunHasNameKeys(day, max);
    RunHasNameKeys(day, FirstRange);
    assert "model" !in WebParameters && "grid" !in WebParameters;
    assert "package" !in WebParameters && "referencetime" !in WebParameters;
    SameFieldsSamePrefix(p, first, home);
    SameFieldsSamePrefix(q, first, home);
  }

  /** For a catalog range, the merged file's path is the run prefix with the range replaced
      wherever it occurs, then the target range and `.grib2`. */
  lemma TargetNameShape(day: string, max: string, home: string)
    requires max in Catalog
    ensures TargetFileName(day, max, home)
         == ReplaceAll(RunPrefix(day, home), max, TargetTimeRange(max)) + TargetTimeRange(max) + Extension
  {
    RunNames(day, max, home, max);
    ReplaceInName(RunPrefix(day, home), max, TargetTimeRange(max));
  }

  /** Replacing a catalog range in `<prefix><range>.grib2`, where the prefix ends in `_`,
      touches the prefix and the range separately. */
  lemma ReplaceInName(prefix: string, max: string, tgt: string)
    requires max in Catalog
    requires |prefix| > 0 && prefix[|prefix| - 1] == '_'
    ensures ReplaceAll(prefix + max + Extension, max, tgt) == ReplaceAll(prefix, max, tgt) + tgt + Extension
  {
    CatalogTokenShape(max);
    assert prefix + max + Extension == prefix + (max + Extension);
    ReplaceAllSplit(prefix, max + Extension, max, tgt);
    RangeSuffixReplaced(max, tgt);
  }

  /** The range and extension that end the run's file name become the target range and
      extension. */
  lemma RangeSuffixReplaced(max: string, tgt: string)
    requires max in Catalog
    ensures ReplaceAll(max + Extension, max, tgt) == tgt + Extension
  {
    CatalogTokenShape(max);
    ReplaceAllLeading(max, Extension, tgt);
    forall i ensures !OccursAt(Extension, max, i) {
      if 0 <= i && i + |max| <= |Extension| {
        assert i == 0;
        assert Extension[0] != max[0];
      }
    }
    ReplaceAllAbsent(Extension, max, tgt);
  }

  /** When the range does not occur in the run prefix, the merged file is named exactly like
      the file of a run whose range is the target range. */
  lemma TargetNameReplacesTimeField(day: string, max: string, home: string)
    requires max in Catalog
    requires !Contains(RunPrefix(day, home), max)
    ensures TargetFileName(day, max, home)
         == CreateFileName(RunParameters(day, TargetTimeRange(max)), home).value
  {
    TargetNameShape(day, max, home);
    CatalogTokenShape(max);
    ReplaceAllAbsent(RunPrefix(day, home), max, TargetTimeRange(max));
    RunNames(day, TargetTimeRange(max), home, max);
  }

  /** A part file has the merged file's path exactly when both the part and the requested
      range are the first range of the catalog. */
  lemma PartNamedLikeTarget(day: string, max: string, home: string, timeFrame: string)
    requires max in Catalog && timeFrame in Catalog
    ensures PartFileName(day, max, home, timeFrame) == TargetFileName(day, max, home)
        <==> timeFrame == FirstRange && max == FirstRange
  {
    var prefix := RunPrefix(day, home);
    var tgt := TargetTimeRange(max);
    RunNames(day, max, home, timeFrame);
    TargetNameShape(day, max, home);
    CatalogTokenShape(max);
    CatalogTokenShape(timeFrame);
    var replaced := ReplaceAll(prefix, max, tgt);
    ReplaceAllKeepsLength(prefix, max, tgt);
    if PartFileName(day, max, home, timeFrame) == TargetFileName(day, max, home) {
      FieldsOfEqualNames(prefix, timeFrame, replaced, tgt, Extension);
    }
    if timeFrame == FirstRange && max == FirstRange {
      ReplaceAllBySelf(prefix, max);
    }
  }

  /** The downloads of a run write to pairwise distinct files: two parts share a path exactly
      when they are for the same range. */
  lemma PartNamesDistinct(day: string, max: string, home: string, t1: string, t2: string)
    ensures PartFileName(day, max, home, t1) == PartFileName(day, max, home, t2) <==> t1 == t2
  {
    var prefix := RunPrefix(day, home);
    RunNames(day, max, home, t1);
    RunNames(day, max, home, t2);
    if PartFileName(day, max, home, t1) == PartFileName(day, max, home, t2) {
      var n1 := prefix + t1 + Extension;
      var n2 := prefix + t2 + Extension;
      assert |t1| == |t2|;
      assert t1 == n1[|prefix|..|prefix| + |t1|];
      assert t2 == n2[|prefix|..|prefix| + |t2|];
    }
  }

  /** The scheduler's promise: the downloads finish in some order, each required range once. */
  predicate IsCompletionOrder(max: string, completed: seq<string>)
  {
    multiset(completed) == multiset(RequiredRanges(max))
  }

  /** Only a run for the first range can have a part file at the merged file's path, and then
      that part is the only one. */
  lemma PartsOfRunAreSafeToMerge(day: string, max: string, home: string, payload: string -> Bytes,
                                 completed: seq<string>, fs: FileSystem)
    requires max in Catalog
    requires IsCompletionOrder(max, completed)
    ensures SafeToMerge(CreateEmpty(fs, TargetFileName(day, max, home)), TargetFileName(day, max, home),
                        CompletedParts(day, max, home, payload, completed))
  {
    var target := TargetFileName(day, max, home);
    var parts := CompletedParts(day, max, home, payload, completed);
    forall i | 0 <= i < |parts| && parts[i].name == target
      ensures |parts| == 1
    {
      SelfNamedPartIsSole(day, max, home, completed, i);
    }
  }

  lemma SelfNamedPartIsSole(day: string, max: string, home: string, completed: seq<string>, i: nat)
    requires max in Catalog
    requires IsCompletionOrder(max, completed)
    requires i < |completed| && PartFileName(day, max, home, completed[i]) == TargetFileName(day, max, home)
    ensures |completed| == 1
  {
    var required := RequiredRanges(max);
    assert completed[i] in multiset(required);
    PartNamedLikeTarget(day, max, home, completed[i]);
    assert max == Catalog[0];
    assert |multiset(completed)| == |multiset(required)|;
  }

  /** The merged file ends up holding every finished part's bytes exactly once, in the order
      the downloads finished; its length is the sum of the required parts' lengths whatever
      that order; every part file is removed; no other file changes. */
  lemma MergedFileHoldsEveryPartOnce(day: string, max: string, home: string, payload: string -> Bytes,
                                     completed: seq<string>, fs: FileSystem)
    requires max in Catalog
    requires IsCompletionOrder(max, completed)
    ensures forall t :: t in RequiredRanges(max) ==> multiset(completed)[t] == 1
    ensures GetAromeFile(day, max, home, payload, completed, fs).fs[TargetFileName(day, max, home)]
         == Contents(CompletedParts(day, max, home, payload, completed))
    ensures |GetAromeFile(day, max, home, payload, completed, fs).fs[TargetFileName(day, max, home)]|
         == PayloadSize(payload, RequiredRanges(max))
    ensures GetAromeFile(day, max, home, payload, completed, fs).fs.Keys
         == fs.Keys + {TargetFileName(day, max, home)}
            - (Names(CompletedParts(day, max, home, payload, completed)) - {TargetFileName(day, max, home)})
    ensures forall n :: (n in GetAromeFile(day, max, home, payload, completed, fs).fs && n != TargetFileName(day, max, home)
      ==> GetAromeFile(day, max, home, payload, completed, fs).fs[n] == fs[n])
  {
    var target := TargetFileName(day, max, home);
    var parts := CompletedParts(day, max, home, payload, completed);
    var created := CreateEmpty(fs, target);
    var out := GetAromeFile(day, max, home, payload, completed, fs);
    assert out.fs == MergeAll(created, target, parts);
    PartsOfRunAreSafeToMerge(day, max, home, payload, completed, fs);
    MergeAppendsEveryPart(created, target, parts);
    ContentsSize(day, max, home, payload, completed);
    PayloadSizeOfPermutation(payload, completed, RequiredRanges(max));
    forall t | t in RequiredRanges(max) ensures multiset(completed)[t] == 1 {
      OccursOnce(RequiredRanges(max), t);
    }
  }

  /** The merged bytes follow the order the downloads finish, not the catalog order: when the
      second range finishes first, its bytes come first. */
  lemma CompletionOrderDecidesLayout(day: string, home: string, payload: string -> Bytes, fs: FileSystem)
    requires payload(Catalog[0]) == [0] && payload(Catalog[1]) == [1]
    ensures GetAromeFile(day, Catalog[1], home, payload, [Catalog[1], Catalog[0]], fs)
              .fs[TargetFileName(day, Catalog[1], home)] == [1, 0]
  {
    SecondRangeIsCompletedInEitherOrder();
    TwoPartRun(day, Catalog[1], home, payload, Catalog[1], Catalog[0], fs);
  }

  /** A run with two finished parts leaves the first one's bytes followed by the second one's. */
  lemma TwoPartRun(day: string, max: string, home: string, payload: string -> Bytes,
                   a: string, b: string, fs: FileSystem)
    requires max in Catalog
    requires IsCompletionOrder(max, [a, b])
    ensures GetAromeFile(day, max, home, payload, [a, b], fs).fs[TargetFileName(day, max, home)]
         == payload(a) + payload(b)
  {
    MergedFileHoldsEveryPartOnce(day, max, home, payload, [a, b], fs);
    TwoPartContents(day, max, home, payload, a, b);
  }

  /** A run up to the second range downloads the first two ranges. */
  lemma SecondRangeIsCompletedInEitherOrder()
    ensures IsCompletionOrder(Catalog[1], [Catalog[1], Catalog[0]])
  {
    assert RequiredRanges(Catalog[1]) == [Catalog[0], Catalog[1]];
  }

  /** Two finished parts merge to the first one's bytes followed by the second one's. */
  lemma TwoPartContents(day: string, max: string, home: string, payload: string -> Bytes, a: string, b: string)
    ensures Contents(CompletedParts(day, max, home, payload, [a, b])) == payload(a) + payload(b)
  {
    var parts := CompletedParts(day, max, home, payload, [a, b]);
    assert parts[2..] == [];
    assert Contents(parts) == parts[0].data + (parts[1].data + Contents(parts[2..]));
  }

  /** `getAromeFile`'s default range: asking for the first range only, the part file IS the merged
      file and is appended to itself. A part within the write buffer is copied once and then
      removed, so no merged file is left; a larger part runs away and the run raises
      `OSError`, leaving a merged file that only starts with the downloaded bytes. The
      corrected run ends normally with exactly the downloaded bytes in the merged file. */
  lemma DefaultRangeMergeFails(day: string, home: string, payload: string -> Bytes, fs: FileSystem)
    ensures |payload(FirstRange)| <= WriteBuffer ==>
      && GetAromeFileAsWritten(day, FirstRange, home, payload, [FirstRange], fs).status == Done
      && TargetFileName(day, FirstRange, home) !in GetAromeFileAsWritten(day, FirstRange, home, payload, [FirstRange], fs).fs
    ensures |payload(FirstRange)| > WriteBuffer ==>
      && GetAromeFileAsWritten(day, FirstRange, home, payload, [FirstRange], fs).status
         == Raised(OSError(TargetFileName(day, FirstRange, home)))
      && TargetFileName(day, FirstRange, home) in GetAromeFileAsWritten(day, FirstRange, home, payload, [FirstRange], fs).fs
      && payload(FirstRange)
         <= GetAromeFileAsWritten(day, FirstRange, home, payload, [FirstRange], fs).fs[TargetFileName(day, FirstRange, home)]
    ensures GetAromeFile(day, FirstRange, home, payload, [FirstRange], fs).fs[TargetFileName(day, FirstRange, home)]
         == payload(FirstRange)
  {
    PartNamedLikeTarget(day, FirstRange, home, FirstRange);
    SelfNamedPartIsLost(day, FirstRange, home, payload, fs);
  }

  /** A run whose one finished part has the merged file's path: the loop as written either
      deletes the merged file or raises `OSError`, depending on whether the part fits the
      write buffer; the corrected loop leaves the part's bytes in the merged file. */
  lemma SelfNamedPartIsLost(day: string, max: string, home: string, payload: string -> Bytes, fs: FileSystem)
    requires max in Catalog
    requires PartFileName(day, max, home, max) == TargetFileName(day, max, home)
    ensures |payload(max)| <= WriteBuffer ==>
      && GetAromeFileAsWritten(day, max, home, payload, [max], fs).status == Done
      && TargetFileName(day, max, home) !in GetAromeFileAsWritten(day, max, home, payload, [max], fs).fs
    ensures |payload(max)| > WriteBuffer ==>
      && GetAromeFileAsWritten(day, max, home, payload, [max], fs).status == Raised(OSError(TargetFileName(day, max, home)))
      && TargetFileName(day, max, home) in GetAromeFileAsWritten(day, max, home, payload, [max], fs).fs
      && payload(max) <= GetAromeFileAsWritten(day, max, home, payload, [max], fs).fs[TargetFileName(day, max, home)]
    ensures GetAromeFile(day, max, home, payload, [max], fs).fs[TargetFileName(day, max, home)] == payload(max)
  {
    var target := TargetFileName(day, max, home);
    var part := Part(target, payload(max));
    assert CompletedParts(day, max, home, payload, [max]) == [part];
    RunSteps(day, max, home, payload, [max], fs);
    SolePartSteps(CreateEmpty(fs, target), target, part);
  }

  /** The run as written raises only for the default range, and there exactly when the part
      does not fit the write buffer; every other run ends normally. */
  lemma AsWrittenRaisesOnlyAtDefault(day: string, max: string, home: string, payload: string -> Bytes,
                                     completed: seq<string>, fs: FileSystem)
    requires max in Catalog
    requires IsCompletionOrder(max, completed)
    ensures GetAromeFileAsWritten(day, max, home, payload, completed, fs).status.Raised?
        <==> max == FirstRange && |payload(FirstRange)| > WriteBuffer
  {
    if max == FirstRange {
      assert RequiredRanges(max) == [FirstRange];
      SoleRangeOrder(completed, FirstRange);
      DefaultRangeMergeFails(day, home, payload, fs);
    } else {
      AsWrittenAgreesBeyondFirstRange(day, max, home, payload, completed, fs);
    }
  }

  /** The only order one range can finish in. */
  lemma SoleRangeOrder(completed: seq<string>, t: string)
    requires multiset(completed) == multiset{t}
    ensures completed == [t]
  {
    assert |completed| == |multiset(completed)| == 1;
    assert completed[0] in multiset(completed);
  }

  /** What the two runs do once the range is known to be valid. */
  lemma RunSteps(day: string, max: string, home: string, payload: string -> Bytes,
                 completed: seq<string>, fs: FileSystem)
    requires max in Catalog
    ensures GetAromeFile(day, max, home, payload, completed, fs).fs
         == MergeAll(CreateEmpty(fs, TargetFileName(day, max, home)), TargetFileName(day, max, home),
                     CompletedParts(day, max, home, payload, completed))
    ensures GetAromeFileAsWritten(day, max, home, payload, completed, fs)
         == MergeAllAsWritten(CreateEmpty(fs, TargetFileName(day, max, home)), TargetFileName(day, max, home),
                              CompletedParts(day, max, home, payload, completed))
  {
  }

  lemma SolePartSteps(fs: FileSystem, target: string, part: Part)
    ensures MergeAll(fs, target, [part]) == CompletePart(fs, target, part)
    ensures MergeAllAsWritten(fs, target, [part]) == CompletePartAsWritten(fs, target, part)
  {
    assert [part][1..] == [];
  }

  /** For every other range no part file shares the merged file's path, and the run as
      written leaves exactly the files the corrected run leaves. */
  lemma AsWrittenAgreesBeyondFirstRange(day: string, max: string, home: string, payload: string -> Bytes,
                                        completed: seq<string>, fs: FileSystem)
    requires max in Catalog && max != FirstRange
    requires IsCompletionOrder(max, completed)
    ensures GetAromeFileAsWritten(day, max, home, payload, completed, fs)
         == GetAromeFile(day, max, home, payload, completed, fs)
  {
    var target := TargetFileName(day, max, home);
    var parts := CompletedParts(day, max, home, payload, completed);
    forall i | 0 <= i < |parts| ensures parts[i].name != target {
      PartIsNotTarget(day, max, home, completed, i);
    }
    AsWrittenAgreesWithoutSelfNamedPart(CreateEmpty(fs, target), target, parts);
    RunSteps(day, max, home, payload, completed, fs);
  }

  lemma PartIsNotTarget(day: string, max: string, home: string, completed: seq<string>, i: nat)
    requires max in Catalog && max != FirstRange
    requires IsCompletionOrder(max, completed)
    requires i < |completed|
    ensures PartFileName(day, max, home, completed[i]) != TargetFileName(day, max, home)
  {
    assert completed[i] in multiset(RequiredRanges(max));
    PartNamedLikeTarget(day, max, home, completed[i]);
  }
}
