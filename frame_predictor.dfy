/**
 * The `/predict` route of the hands-only inference service: it drains the five
 * earliest staged frames of the `frames` directory, turns each into a keypoint
 * vector, and answers with the label of the highest classifier score.
 *
 * The staging directory is a name -> modification-time map (its entries
 * include the `processed_frames` subdirectory), and the processed directory a
 * set of names. Reading an image and detecting its landmarks is one oracle
 * (`read`: whether the image loads and the detector succeeds); the trained
 * classifier is another (`score`: its output row for a frame sequence).
 */
module FramePredictor {
  import opened Common
  import opened Keypoints
  import opened SignLabels

  const FramesNeeded := 5
  const ProcessedDir := "processed_frames"
  const ProcessedPrefix := "processed_"
  const NotEnoughFrames := "Not enough frames (need at least 5)"

  function FailedToLoad(name: string): string {
    "Failed to load image " + name
  }

  datatype PredictResponse =
    | Prediction(prediction: string, confidence: real)   // 200
    | Failure(status: nat, error: string)           // a client-facing error
    | InternalError                                 // 500 carrying the exception text

  /** A staged file is a frame when its lower-cased name ends in `.jpg` or `.png`. */
  predicate IsImageName(name: string) {
    EndsWith(Lower(name), ".jpg") || EndsWith(Lower(name), ".png")
  }

  /** The frames among the staged entries. */
  function Candidates(entries: map<string, int>): (c: set<string>)
    ensures c <= entries.Keys
  {
    set n | n in entries && IsImageName(n)
  }

  /** The extension test ignores case: `.JPG` and `.PNG` files are frames. */
  lemma UpperCaseExtensionsAreFrames(stem: string)
    ensures IsImageName(stem + ".JPG") && IsImageName(stem + ".PNG")
  {
    var j, p := Lower(stem + ".JPG"), Lower(stem + ".PNG");
    assert j[|j| - 4..] == ".jpg";
    assert p[|p| - 4..] == ".png";
  }

  /** A name whose lower-cased form ends in `.jpeg` is never a frame. */
  lemma JpegIsNoFrame(name: string)
    requires EndsWith(Lower(name), ".jpeg")
    ensures !IsImageName(name)
  {
    var l := Lower(name);
    assert l[|l| - 4] == 'j';
  }

  /** The processed-frames subdirectory is never taken for a frame. */
  lemma ProcessedDirIsNoFrame()
    ensures !IsImageName(ProcessedDir)
  {
    var l := Lower(ProcessedDir);
    assert l[|l| - 1] == LowerChar('s');
  }

  /** Names in ascending order of modification time. */
  predicate SortedByMTime(files: seq<string>, entries: map<string, int>) {
    forall i, j :: 0 <= i < j < |files| ==>
      files[i] in entries && files[j] in entries && entries[files[i]] <= entries[files[j]]
  }

  lemma EarliestExists(s: set<string>, entries: map<string, int>)
    requires s != {} && s <= entries.Keys
    ensures exists f :: f in s && forall g :: g in s ==> entries[f] <= entries[g]
  {
    var x :| x in s;
    if s != {x} {
      EarliestExists(s - {x}, entries);
      var y :| y in s - {x} && forall g :: g in s - {x} ==> entries[y] <= entries[g];
      if entries[x] < entries[y] {
        assert forall g :: g in s ==> entries[x] <= entries[g];
      } else {
        assert forall g :: g in s ==> entries[y] <= entries[g];
      }
    } else {
      assert forall g :: g in s ==> entries[x] <= entries[g];
    }
  }

  /**
   * The candidate list: every frame once, in ascending modification time.
   * Frames with equal times come out in an unspecified order.
   */
  method OrderByMTime(entries: map<string, int>) returns (files: seq<string>)
    ensures Elems(files) == Candidates(entries)
    ensures Distinct(files)
    ensures SortedByMTime(files, entries)
  {
    var rest := Candidates(entries);
    files := [];
    while rest != {}
      invariant OrderedSplit(files, rest, entries)
      decreases |rest|
    {
      EarliestExists(rest, entries);
      var f :| f in rest && forall g :: g in rest ==> entries[f] <= entries[g];
      TakeEarliest(files, rest, f, entries);
      files := files + [f];
      rest := rest - {f};
    }
  }

  /** The loop state of OrderByMTime: `files` is sorted, `rest` holds the later frames. */
  ghost predicate OrderedSplit(files: seq<string>, rest: set<string>, entries: map<string, int>) {
    && Elems(files) + rest == Candidates(entries)
    && Elems(files) !! rest
    && Distinct(files)
    && SortedByMTime(files, entries)
    && forall a, b :: a in files && b in rest ==> a in entries && b in entries && entries[a] <= entries[b]
  }

  lemma TakeEarliest(files: seq<string>, rest: set<string>, f: string, entries: map<string, int>)
    requires OrderedSplit(files, rest, entries)
    requires f in rest && forall g :: g in rest ==> entries[f] <= entries[g]
    ensures OrderedSplit(files + [f], rest - {f}, entries)
  {
    var files', rest' := files + [f], rest - {f};
    assert Elems(files') == Elems(files) + {f};
    assert forall i :: 0 <= i < |files| ==> files'[i] == files[i];
    assert Distinct(files') by {
      assert f !in files;
    }
    assert SortedByMTime(files', entries) by {
      forall i, j | 0 <= i < j < |files'|
        ensures files'[i] in entries && files'[j] in entries && entries[files'[i]] <= entries[files'[j]]
      {
        if j == |files| {
          assert files'[i] in files;
        }
      }
    }
  }

  /**
   * The five frames the route consumes: distinct candidates in ascending
   * modification time, none later than any candidate left out.
   */
  ghost predicate EarliestSelection(sel: seq<string>, entries: map<string, int>) {
    && |sel| == FramesNeeded
    && Distinct(sel)
    && Elems(sel) <= Candidates(entries)
    && SortedByMTime(sel, entries)
    && forall i, n :: 0 <= i < |sel| && n in Candidates(entries) - Elems(sel) ==>
         sel[i] in entries && entries[sel[i]] <= entries[n]
  }

  /** Position of the first frame that cannot be loaded or analysed, or `|sel|` when all can. */
  function FirstFailed(sel: seq<string>, read: string -> ImageOutcome): (k: nat)
    ensures k <= |sel|
    ensures forall i :: 0 <= i < k ==> read(sel[i]).Detected?
    ensures k < |sel| ==> !read(sel[k]).Detected?
  {
    FirstFailedFrom(sel, read, 0)
  }

  function FirstFailedFrom(sel: seq<string>, read: string -> ImageOutcome, from: nat): (k: nat)
    requires from <= |sel|
    requires forall i :: 0 <= i < from ==> read(sel[i]).Detected?
    ensures from <= k <= |sel|
    ensures forall i :: 0 <= i < k ==> read(sel[i]).Detected?
    ensures k < |sel| ==> !read(sel[k]).Detected?
    decreases |sel| - from
  {
    if from == |sel| then from
    else if !read(sel[from]).Detected? then from
    else FirstFailedFrom(sel, read, from + 1)
  }

  /** The keypoint sequence of fully loadable frames, in the order given. */
  ghost function Vectors(sel: seq<string>, read: string -> ImageOutcome): seq<seq<real>>
    requires forall i :: 0 <= i < |sel| ==> read(sel[i]).Detected?
  {
    seq(|sel|, i requires 0 <= i < |sel| => ExtractKeypoints(read(sel[i]).detection))
  }

  /** The names written to the processed directory for the consumed frames. */
  function ProcessedNames(consumed: seq<string>): set<string> {
    set n | n in consumed :: ProcessedPrefix + n
  }

  /** `os.makedirs(processed_dir, exist_ok=True)` on the staging entries. */
  function WithProcessedDir(entries: map<string, int>, clock: int): (r: map<string, int>)
    ensures r.Keys == entries.Keys + {ProcessedDir}
    ensures forall n :: n in entries ==> r[n] == entries[n]
  {
    if ProcessedDir in entries then entries else entries[ProcessedDir := clock]
  }

  /** `np.argmax`: the first position of a maximal score. */
  function ArgMax(scores: seq<real>): (k: nat)
    requires scores != []
    ensures k < |scores|
    ensures forall j :: 0 <= j < |scores| ==> scores[j] <= scores[k]
    ensures forall j :: 0 <= j < k ==> scores[j] < scores[k]
  {
    if |scores| == 1 then 0
    else
      var k := ArgMax(scores[..|scores| - 1]);
      if scores[|scores| - 1] > scores[k] then |scores| - 1 else k
  }

  /** The label shown to the caller: hyphens become spaces. */
  function DisplayLabel(name: string): (r: string)
    ensures |r| == |name| && '-' !in r
    ensures forall i :: 0 <= i < |name| && name[i] != '-' ==> r[i] == name[i]
  {
    ReplaceChar(name, '-', ' ')
  }

  /**
   * From the classifier's score row to the response. An empty row or an index
   * outside the label table raises inside the route, which answers 500.
   */
  function Classify(scores: seq<real>): (r: PredictResponse)
    ensures r.InternalError? || r.Prediction?
    ensures |scores| == |Actions| ==> r.Prediction?
    ensures r.Prediction? ==>
              exists k :: 0 <= k < |scores| && k < |Actions|
                && r.prediction == Actions[k] && r.confidence == scores[k]
                && (forall j :: 0 <= j < |scores| ==> scores[j] <= scores[k])
                && (forall j :: 0 <= j < k ==> scores[j] < scores[k])
  {
    if scores == [] then InternalError
    else
      var k := ArgMax(scores);
      if k < |Actions| then
        NoHyphenInActions(k);
        ReplaceAbsentChar(Actions[k], '-', ' ');
        Prediction(DisplayLabel(Actions[k]), scores[k])
      else InternalError
  }

  /** The last label keeps its underscore: the route replaces hyphens only. */
  lemma ExcuseMeVerbatim(scores: seq<real>)
    requires |scores| == |Actions|
    requires forall j :: 0 <= j < 9 ==> scores[j] < scores[9]
    ensures Classify(scores) == Prediction("Excuse_Me", scores[9])
  {
    var r := Classify(scores);
    var k :| 0 <= k < |scores| && k < |Actions| && r.prediction == Actions[k] && r.confidence == scores[k]
      && (forall j :: 0 <= j < |scores| ==> scores[j] <= scores[k])
      && (forall j :: 0 <= j < k ==> scores[j] < scores[k]);
    assert k == 9;
  }

  lemma ProcessedDirKeepsFrames(entries: map<string, int>, clock: int)
    ensures Candidates(WithProcessedDir(entries, clock)) == Candidates(entries)
    ensures forall n :: n in Candidates(entries) ==> WithProcessedDir(entries, clock)[n] == entries[n]
  {
    ProcessedDirIsNoFrame();
  }

  /** The `frames` staging directory together with its `processed_frames` subdirectory. */
  class StagingDir {
    var entries: map<string, int>
    var processed: set<string>

    constructor (entries0: map<string, int>, processed0: set<string>)
      ensures entries == entries0 && processed == processed0
    {
      entries := entries0;
      processed := processed0;
    }

    /**
     * The `/predict` route. With fewer than five frames nothing is consumed.
     * Otherwise the five earliest frames are consumed in order until one
     * cannot be loaded (400) or analysed (500); each consumed frame leaves a
     * `processed_` copy.
     */
    method Predict(read: string -> ImageOutcome, score: seq<seq<real>> -> seq<real>, clock: int)
      returns (resp: PredictResponse, ghost selected: seq<string>)
      modifies this
      ensures |Candidates(old(entries))| < FramesNeeded ==>
                && resp == Failure(400, NotEnoughFrames)
                && entries == WithProcessedDir(old(entries), clock)
                && processed == old(processed)
      ensures |Candidates(old(entries))| >= FramesNeeded ==>
                && EarliestSelection(selected, old(entries))
                && var k := FirstFailed(selected, read);
                && entries == WithProcessedDir(old(entries), clock) - Elems(selected[..k])
                && processed == old(processed) + ProcessedNames(selected[..k])
                && (k < |selected| && read(selected[k]).Unreadable? ==> resp == Failure(400, FailedToLoad(selected[k])))
                && (k < |selected| && read(selected[k]).DetectorFailed? ==> resp == InternalError)
                && (k == |selected| ==> resp == Classify(score(Vectors(selected, read))))
    {
      selected := [];
      entries := WithProcessedDir(entries, clock);
      var files := OrderByMTime(entries);
      CandidateCount(files, old(entries), clock);
      if |files| < FramesNeeded {
        resp := Failure(400, NotEnoughFrames);
        return;
      }
      var sel := files[..FramesNeeded];
      selected := sel;
      SelectionBeforeDir(files, old(entries), clock);
      var k, sequence := DrainFrames(sel, read);
      if k < |sel| {
        resp := if read(sel[k]).Unreadable? then Failure(400, FailedToLoad(sel[k])) else InternalError;
        return;
      }
      resp := Classify(score(sequence));
    }

    /**
     * The consume loop: load each selected frame in turn, stop at the first
     * that cannot be loaded or analysed, and for every frame before it record
     * its keypoint vector, write its processed copy and remove it from staging.
     */
    method DrainFrames(sel: seq<string>, read: string -> ImageOutcome)
      returns (k: nat, sequence: seq<seq<real>>)
      modifies this
      ensures k == FirstFailed(sel, read)
      ensures entries == old(entries) - Elems(sel[..k])
      ensures processed == old(processed) + ProcessedNames(sel[..k])
      ensures k == |sel| ==> sequence == Vectors(sel, read)
    {
      sequence := [];
      k := 0;
      while k < |sel|
        invariant k <= FirstFailed(sel, read) <= |sel|
        invariant entries == old(entries) - Elems(sel[..k])
        invariant processed == old(processed) + ProcessedNames(sel[..k])
        invariant sequence == Vectors(sel[..k], read)
      {
        var image := read(sel[k]);
        if !image.Detected? {
          return;
        }
        VectorsSnoc(sel, read, k);
        ConsumedSnoc(sel, k);
        RemoveOneMore(old(entries), Elems(sel[..k]), sel[k]);
        sequence := sequence + [ExtractKeypoints(image.detection)];
        processed := processed + {ProcessedPrefix + sel[k]};
        entries := entries - {sel[k]};
        k := k + 1;
      }
      assert sel[..k] == sel;
    }
  }

  lemma VectorsSnoc(sel: seq<string>, read: string -> ImageOutcome, k: nat)
    requires k < |sel| && forall i :: 0 <= i <= k ==> read(sel[i]).Detected?
    ensures Vectors(sel[..k + 1], read) == Vectors(sel[..k], read) + [ExtractKeypoints(read(sel[k]).detection)]
  {
  }

  lemma ConsumedSnoc(sel: seq<string>, k: nat)
    requires k < |sel|
    ensures Elems(sel[..k + 1]) == Elems(sel[..k]) + {sel[k]}
    ensures ProcessedNames(sel[..k + 1]) == ProcessedNames(sel[..k]) + {ProcessedPrefix + sel[k]}
  {
    assert sel[..k + 1] == sel[..k] + [sel[k]];
  }

  lemma RemoveOneMore(m: map<string, int>, gone: set<string>, x: string)
    ensures (m - gone) - {x} == m - (gone + {x})
  {
  }

  lemma DistinctElemsSize<T>(s: seq<T>)
    requires Distinct(s)
    ensures |Elems(s)| == |s|
  {
    if s != [] {
      var init := s[..|s| - 1];
      assert Elems(s) == Elems(init) + {s[|s| - 1]};
      assert s[|s| - 1] !in Elems(init);
      DistinctElemsSize(init);
    }
  }

  /** The candidate list has one name per frame of the staging directory as it was before `makedirs`. */
  lemma CandidateCount(files: seq<string>, entries: map<string, int>, clock: int)
    requires Elems(files) == Candidates(WithProcessedDir(entries, clock)) && Distinct(files)
    ensures |files| == |Candidates(entries)|
  {
    ProcessedDirKeepsFrames(entries, clock);
    DistinctElemsSize(files);
  }

  /** Creating the processed directory does not change which frames are the earliest. */
  lemma SelectionBeforeDir(files: seq<string>, entries: map<string, int>, clock: int)
    requires Elems(files) == Candidates(WithProcessedDir(entries, clock)) && Distinct(files)
    requires SortedByMTime(files, WithProcessedDir(entries, clock))
    requires |files| >= FramesNeeded
    ensures EarliestSelection(files[..FramesNeeded], entries)
  {
    ProcessedDirKeepsFrames(entries, clock);
    SelectionIsEarliest(files, WithProcessedDir(entries, clock));
  }

  /** The first five of a complete, sorted candidate list are the five earliest frames. */
  lemma SelectionIsEarliest(files: seq<string>, entries: map<string, int>)
    requires Elems(files) == Candidates(entries) && Distinct(files) && SortedByMTime(files, entries)
    requires |files| >= FramesNeeded
    ensures EarliestSelection(files[..FramesNeeded], entries)
  {
    var sel := files[..FramesNeeded];
    assert forall t :: 0 <= t < FramesNeeded ==> files[t] in Elems(sel);
    forall i, n | 0 <= i < |sel| && n in Candidates(entries) - Elems(sel)
      ensures sel[i] in entries && entries[sel[i]] <= entries[n]
    {
      var j :| 0 <= j < |files| && files[j] == n;
      assert i < j;
    }
  }
}
