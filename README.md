# Sign-recognition services: a Dafny model

This project models the decision logic of a sign-language recognition app. The
app has three services:

- **`/predict`** (the hands-only inference service). It drains the five
  earliest frames staged in a `frames` directory. It turns each frame into a
  126-value hand-keypoint vector and answers with the classifier's best
  label and its confidence.
- **`/upload`** (the hand relay). It saves one image and extracts its hand
  keypoints. It sends them to a remote classifier and translates the returned
  sign id through a table of Arabic sign names.
- **`POST /frames`** (the frame-staging server). It stores an uploaded frame
  as `<n>.jpg`, where `n` is one past the largest frame number already
  present.

The training-data loader is modelled too. It scans one folder per label and
keeps every 126-wide keypoint sequence with its label index. It loads two
dataset folders and concatenates them.

The libraries the services wrap are oracles (function-typed parameters):

- the landmark detector together with image loading (`read`);
- the trained classifier (`score`);
- the remote classifier (`remote`).

The file system is modelled as state:

- the staging directory is a class holding a name → modification-time map and
  the set of processed copies;
- the upload folder is a class holding a set of names;
- a directory listing is a sequence of names.

Modules:

| module | file | models |
|---|---|---|
| `Common` | common.dfy | `Option`, sequence and string helpers (`lower`, `replace`, `endswith`) |
| `Decimal` | decimal.dfy | decimal digits and the decimal rendering of integers |
| `Keypoints` | keypoints.dfy | `extract_keypoints`, the same in both Python services |
| `SignLabels` | sign_labels.dfy | the ten-label `actions` table |
| `FramePredictor` | frame_predictor.dfy | the `/predict` route |
| `HandRelay` | hand_relay.dfy | `send_to_model`, `get_sign_arabic` and the `/upload` route |
| `DatasetLoader` | dataset_loader.dfy | `load_data_from_folder` and the two-folder concatenation |
| `FrameAllocator` | frame_allocator.dfy | the multer `filename` allocator and the `POST /frames` reply |

Behaviour of the code that is easy to misread:

- **Label text.** The route replaces hyphens with spaces, not underscores
  (app.py:95). No label contains a hyphen, so labels come back verbatim;
  `Excuse_Me` keeps its underscore (`FramePredictor.ExcuseMeVerbatim`).
- **`processed_frames` is created first.** When fewer than five frames are
  staged, no frame is touched. The `processed_frames` subdirectory may still
  have been created, because the route creates it before counting.
- **Detector failure answers 500 in both services.** In `/upload`, a detector
  exception makes the detection `None`, and building the keypoint vector from
  `None` then raises. In `/predict`, the exception escapes to the route's
  handler. Either way the request ends in a 500.
- **Frame numbers can be negative.** `parseInt` accepts a sign, so a staged
  `-5.jpg` is frame −5. With only that frame present, the next name is
  `-4.jpg` (`FrameAllocator.OneNegativeFrame`).

## Model

| member | source | states |
|---|---|---|
| Keypoints.Flatten | MubayinApp/ASL_model/app.py:31-32 | flattening landmarks gives 3 values per landmark, x, y, z at positions 3j, 3j+1, 3j+2 |
| Keypoints.ExtractKeypoints | MubayinApp/ASL_model/app.py:30-35 | 126 values for a well-formed detection: left-hand block at 0-62, right-hand block at 63-125, an absent hand as 63 zeros in its slot, a present hand's coordinates in landmark order |
| Keypoints.AllZeroIffSilent | MubayinApp/HandModel-backend/handModel.py:45-48 | the keypoint vector is all zeros exactly when each hand is absent or has only zero coordinates |
| Keypoints.FlattenAllZero | MubayinApp/HandModel-backend/handModel.py:46-47 | a flattened hand block is all zeros exactly when every landmark coordinate is zero |
| Keypoints.AllZero | MubayinApp/HandModel-backend/handModel.py:113 | `np.all(keypoints == 0)`: the definition; what it means for a detection is proved in `Keypoints.AllZeroIffSilent` |
| SignLabels.NoHyphenInActions | MubayinApp/ASL_model/app.py:14-17 | no label of the table contains a hyphen |
| Common.ReplaceAbsentChar | MubayinApp/ASL_model/app.py:95 | replacing a character that does not occur leaves the text unchanged |
| Common.ReplaceChar | MubayinApp/ASL_model/app.py:95 | `str.replace` of one character: same length, each occurrence replaced, every other character kept |
| FramePredictor.Candidates | MubayinApp/ASL_model/app.py:48-50 | the frames are a subset of the staged entries |
| FramePredictor.IsImageName | MubayinApp/ASL_model/app.py:50 | the frame test, a lower-cased name ending in `.jpg` or `.png`: the definition; its consequences are the next three rows |
| FramePredictor.UpperCaseExtensionsAreFrames | MubayinApp/ASL_model/app.py:50 | the test ignores case: `.JPG` and `.PNG` files are frames |
| FramePredictor.JpegIsNoFrame | MubayinApp/ASL_model/app.py:49-50 | a name whose lower-cased form ends in `.jpeg` is never a frame |
| FramePredictor.ProcessedDirIsNoFrame | MubayinApp/ASL_model/app.py:41-50 | the `processed_frames` subdirectory is never a frame |
| FramePredictor.OrderByMTime | MubayinApp/ASL_model/app.py:48-51 | the candidate list holds every frame exactly once, in ascending modification time |
| FramePredictor.SelectionIsEarliest | MubayinApp/ASL_model/app.py:56 | the first five of the sorted candidate list are five distinct frames, sorted, none later than any frame left out |
| FramePredictor.SelectionBeforeDir | MubayinApp/ASL_model/app.py:41-56 | creating `processed_frames` does not change which frames are the earliest five |
| FramePredictor.CandidateCount | MubayinApp/ASL_model/app.py:42-53 | the candidate list has one entry per frame of the directory as it was before `makedirs` |
| FramePredictor.ProcessedDirKeepsFrames | MubayinApp/ASL_model/app.py:42 | creating `processed_frames` leaves the frames and their times unchanged |
| FramePredictor.WithProcessedDir | MubayinApp/ASL_model/app.py:42 | `makedirs(..., exist_ok=True)`: the directory gains `processed_frames` and every existing entry keeps its time |
| FramePredictor.FirstFailed | MubayinApp/ASL_model/app.py:65-71 | the position of the first selected frame that cannot be loaded or analysed: all frames before it load, the frame at it does not |
| FramePredictor.ArgMax | MubayinApp/ASL_model/app.py:95 | `np.argmax`: a position of a maximal score, the first such |
| FramePredictor.DisplayLabel | MubayinApp/ASL_model/app.py:95 | the label with hyphens replaced: same length, no hyphen left, every other character kept |
| FramePredictor.Classify | MubayinApp/ASL_model/app.py:93-101 | the answer is a prediction or a 500; a score row as long as the table always gives a prediction; a prediction is the label at the first maximal score, verbatim, with that score as confidence |
| FramePredictor.ExcuseMeVerbatim | MubayinApp/ASL_model/app.py:95 | when the last score is strictly above all nine others, the answer is `Excuse_Me` with its underscore kept (on a tie `np.argmax` picks the earlier label) |
| FramePredictor.StagingDir.Predict | MubayinApp/ASL_model/app.py:38-104 | fewer than five frames: 400 "Not enough frames", no frame consumed. Otherwise: the five earliest frames are selected and consumed in order up to the first that fails. An unreadable frame gives 400 "Failed to load image", a detector failure gives 500. Exactly the consumed frames leave staging and gain a `processed_` copy. With all five read, the answer is the classification of their five keypoint vectors in selection order |
| FramePredictor.StagingDir.DrainFrames | MubayinApp/ASL_model/app.py:65-86 | the loop stops at the first failing frame; exactly the frames before it are removed and gain a processed copy; with none failing, the sequence is the five keypoint vectors in order |
| HandRelay.SignFromReply | MubayinApp/HandModel-backend/handModel.py:57-64 | a 200 reply with a JSON object passes `predicted_sign` through, "Unknown" when the key is missing; a failed request, another status or a body that is not an object gives "Error" |
| HandRelay.StripStart | MubayinApp/HandModel-backend/handModel.py:70 | the leading white space `int` ignores (space and `\t` to `\r`) is removed: the result does not start with white space |
| HandRelay.StripEnd | MubayinApp/HandModel-backend/handModel.py:70 | the trailing white space `int` ignores is removed: the result does not end with white space |
| HandRelay.UnsignedOfText | MubayinApp/HandModel-backend/handModel.py:70 | unsigned digits are read exactly when they are digits grouped by single underscores; the value is not negative |
| HandRelay.IntOfText | MubayinApp/HandModel-backend/handModel.py:70-73 | `int(text)` succeeds exactly when the stripped text is an optional sign followed by grouped digits (otherwise `ValueError`); the value is negative only after a `-` |
| HandRelay.SeparatorIsNotSpace | MubayinApp/HandModel-backend/handModel.py:70-73 | a leading `\x1c` is not skipped, so `"\x1c5"` raises `ValueError` |
| HandRelay.Truncate | MubayinApp/HandModel-backend/handModel.py:70 | `int` of a number with a fraction truncates towards zero |
| HandRelay.ToSignInt | MubayinApp/HandModel-backend/handModel.py:70-73 | `int(predicted_sign)`: `TypeError` exactly for `null`, arrays and objects; `ValueError` exactly for text that is not an integer literal; integers kept, floats truncated, booleans as 1 or 0, integer text as its value |
| HandRelay.IntOfShowInt | MubayinApp/HandModel-backend/handModel.py:70 | `int` reads back the decimal text of every integer |
| HandRelay.IntOfTextIgnoresSpace | MubayinApp/HandModel-backend/handModel.py:70 | white space around the text does not change what `int` reads |
| HandRelay.FirstRowFrom | MubayinApp/HandModel-backend/handModel.py:76-78 | the Arabic name of the first row with the given id, none exactly when no row has it |
| HandRelay.GetSignArabic | MubayinApp/HandModel-backend/handModel.py:67-79 | a `TypeError` from `int` escapes; text that is not an integer gives "Unknown"; a converted id gives the first matching row's name, or "Unknown" when no row matches |
| HandRelay.SentinelsMapToUnknown | MubayinApp/HandModel-backend/handModel.py:69-73 | the sentinels "Error" and "Unknown" both look up as "Unknown" |
| HandRelay.FailedCallIsUnknown | MubayinApp/HandModel-backend/handModel.py:57-64 | a failed request, a non-200 status or a body that is not a JSON object gives "Error", which looks up as "Unknown" |
| HandRelay.MissingSignIsUnknown | MubayinApp/HandModel-backend/handModel.py:57-58 | a 200 reply without `predicted_sign` gives "Unknown", which looks up as "Unknown" |
| HandRelay.DecimalTextLooksUpAsNumber | MubayinApp/HandModel-backend/handModel.py:67-79 | a sign id sent as decimal text looks up the same row as the number itself |
| HandRelay.NoDetectedHandIsNoHands | MubayinApp/HandModel-backend/handModel.py:101-114 | an image with no detected hand has all-zero keypoints, so it is answered "No hands detected!" |
| HandRelay.UploadFolder.ProcessImage | MubayinApp/HandModel-backend/handModel.py:82-127 | no file part: 400 "No file provided", nothing saved. An empty file name: the save raises, 500, nothing saved. An unreadable image: 400 "Failed to read image", only the upload saved. A detector failure: 500. Otherwise the processed copy is saved too. All-zero keypoints answer "No hands detected!" and never call the remote model. Any other keypoints are posted, and the answer carries the predicted sign, its Arabic name (or a 500 when the conversion raises a `TypeError`) and the keypoints |
| DatasetLoader.AcceptedIn | ASL_model/test_request.py:43-49 | a folder contributes exactly the arrays of the entries that have a 126-wide `sequence.npy`; all are 126 wide |
| DatasetLoader.AcceptedInConcat | ASL_model/test_request.py:43-49 | scanning a listing in two parts contributes the two parts' arrays in order |
| DatasetLoader.RejectedEntryContributesNothing | ASL_model/test_request.py:44-47 | an entry without `sequence.npy`, or with another width, adds nothing |
| DatasetLoader.FolderDataAligned | ASL_model/test_request.py:37-50 | samples and labels are equally long; each label is below the label count; labels never decrease; each sample comes from its label's folder |
| DatasetLoader.FolderSamplesWidth | ASL_model/test_request.py:47 | every loaded sample is 126 wide |
| DatasetLoader.ScanLabelFolder | ASL_model/test_request.py:43-49 | the inner loop appends the folder's accepted arrays and one copy of the label per array |
| DatasetLoader.LoadDataFromFolder | ASL_model/test_request.py:37-50 | the loops build the label-by-label samples and labels; equal lengths, labels in [0, 10), width 126; missing folders are skipped |
| DatasetLoader.LoadBoth | ASL_model/test_request.py:53-58 | the combined data is folder 1 followed by folder 2, each sample aligned with a label of the folder it came from |
| Decimal.ShowNatValue | ASL_model/asl_server.js:38 | the decimal digits written for a number denote that number |
| FrameAllocator.BeforeFirstDot | ASL_model/asl_server.js:34 | `split('.')[0]`: the longest prefix without a dot |
| FrameAllocator.FrameIndex | ASL_model/asl_server.js:33-35 | only `.jpg` names have a frame number, and a `.jpg` name's number is what `parseInt` reads before the first dot |
| FrameAllocator.FrameIndexOfDigits | ASL_model/asl_server.js:33-35 | a `.jpg` name that starts with decimal digits and then a dot is numbered by those digits (`007.jpg` is 7, `1.5.jpg` is 1) |
| FrameAllocator.TrimStart | ASL_model/asl_server.js:34 | `parseInt` skips leading white space: the result does not start with white space |
| FrameAllocator.TrimStartSpaces | ASL_model/asl_server.js:34 | exactly the leading white space is dropped and the rest is kept |
| FrameAllocator.ParseInt | ASL_model/asl_server.js:34 | `parseInt`: a number only when some text is left after the white space, and a negative one only after a leading `-` |
| FrameAllocator.ParseMagnitude | ASL_model/asl_server.js:34 | the unsigned part is read only when it starts with a digit, and is not negative |
| FrameAllocator.ParseIntOfShowInt | ASL_model/asl_server.js:34 | `parseInt` reads back the decimal text of every integer |
| FrameAllocator.ParseIntIgnoresTrailing | ASL_model/asl_server.js:34 | `parseInt` stops at the first character that is not a digit (`12abc` reads as 12), unless a lone `0` is followed by `x` or `X` |
| FrameAllocator.Numbers | ASL_model/asl_server.js:31-34 | one frame number (or none) per listed name |
| FrameAllocator.Present | ASL_model/asl_server.js:35 | the numbers kept are exactly those some name has |
| FrameAllocator.MaxOf | ASL_model/asl_server.js:37 | `Math.max`: a member not below any other |
| FrameAllocator.NextOfAboveAll | ASL_model/asl_server.js:35-37 | the new index is above every frame number; it is 0 with none present, otherwise one more than a present number |
| FrameAllocator.NextIndex | ASL_model/asl_server.js:31-37 | the allocator's index: above every listed frame number; 0 when no name has one; otherwise one more than a listed number |
| FrameAllocator.NextFrameName | ASL_model/asl_server.js:29-39 | the callback's name: not already in the directory, a `.jpg` name whose frame number is the new index |
| FrameAllocator.EmptyDirectoryStartsAtZero | ASL_model/asl_server.js:37-38 | with no numbered `.jpg` present, the new name is `0.jpg` |
| FrameAllocator.UnnumberedNameIgnored | ASL_model/asl_server.js:33-35 | a name without a frame number does not change the new index |
| FrameAllocator.UpperCaseJpgIsUnnumbered | ASL_model/asl_server.js:33 | the `.jpg` test is case-sensitive: `.JPG` files are not numbered |
| FrameAllocator.NegativeNextIndex | ASL_model/asl_server.js:34-37 | the new index is negative exactly when numbers are present and all are below -1 |
| FrameAllocator.OneNegativeFrame | ASL_model/asl_server.js:34-38 | with only `-5.jpg` present, the new name is `-4.jpg` |
| FrameAllocator.NextOfAfterNew | ASL_model/asl_server.js:37 | adding a number above all present makes the next index one past it |
| FrameAllocator.NextIndexOrderIndependent | ASL_model/asl_server.js:31-37 | the new name depends only on the set of names, not on listing order or repeats |
| FrameAllocator.FrameIndexOfRendered | ASL_model/asl_server.js:34-38 | the name `<n>.jpg` has frame number n |
| FrameAllocator.NewNameIsFresh | ASL_model/asl_server.js:37-38 | the rendered name `${nextIndex}.jpg` is not already in the directory |
| FrameAllocator.NextUploadFollows | ASL_model/asl_server.js:37-38 | after storing the new frame, the next upload gets the following number |
| FrameAllocator.FramesUpload | ASL_model/asl_server.js:49-62 | success exactly when a file came. With a file: 200, "Image uploaded successfully!" and exactly `/frames/` followed by the callback's name. Without one: 400, "❌ No file uploaded" and no path |

## Left out

- Landmark detection, image decoding, drawing and writing are oracles. Only whether loading and detection succeed matters, plus the landmark lists. A written image is modelled as a name added, not as its pixels.
- The classifier (`model.predict`) is an oracle returning a score row. Failures for a wrongly shaped input are not modelled.
- Training, one-hot encoding and the train/test split after the loader are not modelled.
- Scores and coordinates are `real`. NaN, infinities and float rounding are not modelled, including `float(np.max(...))`.
- A `predicted_sign` float is a `real`, so the non-finite values Python's JSON reader accepts (`NaN`, `Infinity`, `1e400`) are not modelled. The source answers "Unknown" for `NaN`, since `int` raises `ValueError`, and a 500 for infinity, since `int` raises `OverflowError`, which nothing catches.
- JSON encoding is left out, including how non-finite floats are written.
- `int` and `parseInt` are modelled on ASCII text only. Unicode white space and non-ASCII digits are left out.
- JavaScript number precision is left out. Beyond 2^53, and for `Infinity` or exponent renderings, the model uses exact integers.
- `Math.max` over very long argument lists (a stack limit) is not modelled.
- The network, Flask/Express plumbing, multer's handling of fields other than `file`, and `app.run`/`app.listen` are left out.
- The `requests.post` call is one oracle reply, including its exceptions.
- The sign table is given as rows. A failure to load the CSV, which leaves the table undefined, is not modelled.
- The error text of a 500 (`str(e)`) is not modelled; it is one `InternalError` answer.
- `os.makedirs` failing on an existing file of the same name, `np.load` of a file that is not a valid array and `np.array` of ragged samples are not modelled.
- Path joining is left out: names stand for paths.
- HandRelay.UploadFolder.ProcessImage: the empty file name is the only failing save that is modelled. Names with path separators, permission errors and a full disk are not.
- DatasetLoader.LoadDataFromFolder: every `sequence.npy` is modelled as a 2-D array. A 1-D or 0-D array makes `data.shape[1]` raise `IndexError` (test_request.py:47), which nothing catches, so the whole load stops; the model does not capture this. For a 3-D array only `shape[1]` is tested, and the model does not cover that case either.
- FramePredictor.WithProcessedDir: the `processed_frames` entry keeps the time it had when it was created. Writing the processed copies into it (app.py:83) would update that time, but the model does not track it. No answer depends on it, because that entry fails the extension test before its time is read (app.py:50-51).
- Concurrent requests on the same directory are not modelled. Logging is left out.
- FramePredictor.OrderByMTime: frames with equal modification times come out in an unspecified order, where the source keeps listing order.
- Common.Lower: lower-cases ASCII letters only.
- Code that is commented out is not modelled.
