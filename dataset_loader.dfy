/**
 * The training-set loader: for every label of the table, in table order, the
 * label's folder (when present) is scanned and each sample directory holding a
 * `sequence.npy` whose frames are 126 values wide contributes one sample,
 * labelled with the label's index. Two dataset folders are loaded and
 * concatenated.
 *
 * A dataset folder is a map from label-folder name to the listing of that
 * folder; each listed entry carries its stored keypoint-sequence array, if it
 * has one.
 */
module DatasetLoader {
  import opened Common
  import opened Keypoints
  import opened SignLabels

  /** A stored keypoint-sequence array of shape (|frames|, width). */
  datatype SequenceArray = SequenceArray(frames: seq<seq<real>>, width: nat)

  /** One entry of a label folder and its `sequence.npy`, if present. */
  datatype SampleEntry = SampleEntry(name: string, sequenceFile: Option<SequenceArray>)

  type DataFolder = map<string, seq<SampleEntry>>

  /** An entry is kept when it has a `sequence.npy` of hands-only width. */
  predicate Accepted(e: SampleEntry) {
    e.sequenceFile.Some? && e.sequenceFile.value.width == KeypointWidth
  }

  /** The arrays a label folder contributes, in listing order. */
  function AcceptedIn(entries: seq<SampleEntry>): (r: seq<SequenceArray>)
    ensures |r| <= |entries|
    ensures forall a :: a in r ==> a.width == KeypointWidth
    ensures forall a :: a in r <==> exists i :: 0 <= i < |entries| && Accepted(entries[i]) && entries[i].sequenceFile.value == a
  {
    if entries == [] then []
    else
      var last := entries[|entries| - 1];
      AcceptedIn(entries[..|entries| - 1]) + (if Accepted(last) then [last.sequenceFile.value] else [])
  }

  lemma {:induction false} AcceptedInConcat(a: seq<SampleEntry>, b: seq<SampleEntry>)
    ensures AcceptedIn(a + b) == AcceptedIn(a) + AcceptedIn(b)
  {
    if b == [] {
      assert a + b == a;
    } else {
      var b' := b[..|b| - 1];
      assert (a + b)[..|a + b| - 1] == a + b';
      assert (a + b)[|a + b| - 1] == b[|b| - 1];
      AcceptedInConcat(a, b');
    }
  }

  /**
   * An entry without a `sequence.npy`, or with one of another width, adds
   * nothing: dropping it from the listing leaves the folder's samples as they are.
   */
  lemma RejectedEntryContributesNothing(before: seq<SampleEntry>, e: SampleEntry, after: seq<SampleEntry>)
    requires !Accepted(e)
    ensures AcceptedIn(before + [e] + after) == AcceptedIn(before + after)
  {
    AcceptedInConcat(before + [e], after);
    AcceptedInConcat(before, after);
    assert (before + [e])[..|before|] == before;
  }

  /** What label `idx` contributes: nothing when its folder is missing. */
  function LabelSamples(folder: DataFolder, idx: nat): seq<SequenceArray>
    requires idx < |Actions|
  {
    if Actions[idx] in folder then AcceptedIn(folder[Actions[idx]]) else []
  }

  function Repeat(v: nat, n: nat): (r: seq<nat>)
    ensures |r| == n && forall i :: 0 <= i < n ==> r[i] == v
  {
    seq(n, _ => v)
  }

  /** The samples of the first `n` labels, label by label. */
  function FolderSamples(folder: DataFolder, n: nat): seq<SequenceArray>
    requires n <= |Actions|
  {
    if n == 0 then [] else FolderSamples(folder, n - 1) + LabelSamples(folder, n - 1)
  }

  /** The labels that go with `FolderSamples(folder, n)`. */
  function FolderLabels(folder: DataFolder, n: nat): seq<nat>
    requires n <= |Actions|
  {
    if n == 0 then [] else FolderLabels(folder, n - 1) + Repeat(n - 1, |LabelSamples(folder, n - 1)|)
  }

  /**
   * The two lists stay parallel, every label is an index below `n`, labels
   * never decrease, and each sample is one that its label's folder contributes.
   */
  lemma FolderDataAligned(folder: DataFolder, n: nat)
    requires n <= |Actions|
    ensures |FolderSamples(folder, n)| == |FolderLabels(folder, n)|
    ensures forall i :: 0 <= i < |FolderLabels(folder, n)| ==> FolderLabels(folder, n)[i] < n
    ensures forall i, j :: 0 <= i <= j < |FolderLabels(folder, n)| ==> FolderLabels(folder, n)[i] <= FolderLabels(folder, n)[j]
    ensures forall i :: 0 <= i < |FolderSamples(folder, n)| ==>
              FolderLabels(folder, n)[i] < |Actions| && FolderSamples(folder, n)[i] in LabelSamples(folder, FolderLabels(folder, n)[i])
  {
    FolderLengths(folder, n);
    FolderLabelsBelow(folder, n);
    FolderLabelsSorted(folder, n);
    FolderSampleOrigin(folder, n);
  }

  lemma {:induction false} FolderLengths(folder: DataFolder, n: nat)
    requires n <= |Actions|
    ensures |FolderSamples(folder, n)| == |FolderLabels(folder, n)|
  {
    if n > 0 {
      FolderLengths(folder, n - 1);
    }
  }

  lemma {:induction false} FolderLabelsBelow(folder: DataFolder, n: nat)
    requires n <= |Actions|
    ensures forall i :: 0 <= i < |FolderLabels(folder, n)| ==> FolderLabels(folder, n)[i] < n
  {
    if n > 0 {
      FolderLabelsBelow(folder, n - 1);
      var ys := FolderLabels(folder, n - 1);
      assert FolderLabels(folder, n) == ys + Repeat(n - 1, |LabelSamples(folder, n - 1)|);
    }
  }

  lemma {:induction false} FolderLabelsSorted(folder: DataFolder, n: nat)
    requires n <= |Actions|
    ensures forall i, j :: 0 <= i <= j < |FolderLabels(folder, n)| ==> FolderLabels(folder, n)[i] <= FolderLabels(folder, n)[j]
  {
    if n > 0 {
      FolderLabelsSorted(folder, n - 1);
      FolderLabelsBelow(folder, n - 1);
      var ys := FolderLabels(folder, n - 1);
      var zs := FolderLabels(folder, n);
      assert zs == ys + Repeat(n - 1, |LabelSamples(folder, n - 1)|);
      forall i, j | 0 <= i <= j < |zs| ensures zs[i] <= zs[j] {
        if j < |ys| {
          assert zs[i] == ys[i] && zs[j] == ys[j];
        } else if i < |ys| {
          assert zs[i] == ys[i] < n - 1;
        }
      }
    }
  }

  lemma {:induction false} FolderSampleOrigin(folder: DataFolder, n: nat)
    requires n <= |Actions|
    ensures |FolderSamples(folder, n)| == |FolderLabels(folder, n)|
    ensures forall i :: 0 <= i < |FolderSamples(folder, n)| ==>
              FolderLabels(folder, n)[i] < |Actions| && FolderSamples(folder, n)[i] in LabelSamples(folder, FolderLabels(folder, n)[i])
  {
    FolderLengths(folder, n);
    if n > 0 {
      FolderSampleOrigin(folder, n - 1);
      FolderLabelsBelow(folder, n - 1);
      var xs, ys := FolderSamples(folder, n - 1), FolderLabels(folder, n - 1);
      var more := LabelSamples(folder, n - 1);
      var xs', ys' := FolderSamples(folder, n), FolderLabels(folder, n);
      assert xs' == xs + more;
      assert ys' == ys + Repeat(n - 1, |more|);
      forall i | 0 <= i < |xs'|
        ensures ys'[i] < |Actions| && xs'[i] in LabelSamples(folder, ys'[i])
      {
        if i < |xs| {
          assert xs'[i] == xs[i] && ys'[i] == ys[i];
        } else {
          assert xs'[i] == more[i - |xs|] && ys'[i] == n - 1;
        }
      }
    }
  }

  /** Every sample the loader keeps is 126 values wide. */
  lemma {:induction false} FolderSamplesWidth(folder: DataFolder, n: nat)
    requires n <= |Actions|
    ensures forall a :: a in FolderSamples(folder, n) ==> a.width == KeypointWidth
  {
    if n > 0 {
      FolderSamplesWidth(folder, n - 1);
    }
  }

  /** `load_data_from_folder`. */
  method LoadDataFromFolder(folder: DataFolder) returns (xs: seq<SequenceArray>, ys: seq<nat>)
    ensures xs == FolderSamples(folder, |Actions|) && ys == FolderLabels(folder, |Actions|)
    ensures |xs| == |ys|
    ensures forall i :: 0 <= i < |ys| ==> ys[i] < |Actions|
    ensures forall a :: a in xs ==> a.width == KeypointWidth
  {
    xs, ys := [], [];
    for idx := 0 to |Actions|
      invariant xs == FolderSamples(folder, idx) && ys == FolderLabels(folder, idx)
    {
      var action := Actions[idx];
      if action !in folder {
        continue;
      }
      xs, ys := ScanLabelFolder(xs, ys, folder[action], idx);
    }
    FolderDataAligned(folder, |Actions|);
    FolderSamplesWidth(folder, |Actions|);
  }

  /**
   * The inner loop of `load_data_from_folder` over one label folder: each
   * accepted entry appends its array to `xs` and the label to `ys`.
   */
  method ScanLabelFolder(xs0: seq<SequenceArray>, ys0: seq<nat>, entries: seq<SampleEntry>, idx: nat)
    returns (xs: seq<SequenceArray>, ys: seq<nat>)
    ensures xs == xs0 + AcceptedIn(entries)
    ensures ys == ys0 + Repeat(idx, |AcceptedIn(entries)|)
  {
    xs, ys := xs0, ys0;
    for j := 0 to |entries|
      invariant xs == xs0 + AcceptedIn(entries[..j])
      invariant ys == ys0 + Repeat(idx, |AcceptedIn(entries[..j])|)
    {
      assert entries[..j + 1][..j] == entries[..j];
      var e := entries[j];
      if e.sequenceFile.Some? {
        var data := e.sequenceFile.value;
        if data.width == KeypointWidth {
          xs := xs + [data];
          ys := ys + [idx];
        }
      }
    }
    assert entries[..|entries|] == entries;
  }

  /** Loads both dataset folders and concatenates them, samples and labels alike. */
  method LoadBoth(folder1: DataFolder, folder2: DataFolder) returns (xs: seq<SequenceArray>, ys: seq<nat>)
    ensures xs == FolderSamples(folder1, |Actions|) + FolderSamples(folder2, |Actions|)
    ensures ys == FolderLabels(folder1, |Actions|) + FolderLabels(folder2, |Actions|)
    ensures |xs| == |ys|
    ensures forall i :: 0 <= i < |xs| ==>
              && ys[i] < |Actions|
              && xs[i] in LabelSamples(if i < |FolderSamples(folder1, |Actions|)| then folder1 else folder2, ys[i])
  {
    var xs1, ys1 := LoadDataFromFolder(folder1);
    var xs2, ys2 := LoadDataFromFolder(folder2);
    xs, ys := xs1 + xs2, ys1 + ys2;
    FolderDataAligned(folder1, |Actions|);
    FolderDataAligned(folder2, |Actions|);
    forall i | |xs1| <= i < |xs|
      ensures ys[i] < |Actions| && xs[i] in LabelSamples(folder2, ys[i])
    {
      assert xs[i] == xs2[i - |xs1|] && ys[i] == ys2[i - |xs1|];
    }
  }
}
