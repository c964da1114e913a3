# say_cheese — the bookkeeping of the smile detector, in Dafny

`say_cheese.py` watches a camera, finds faces with a cascade classifier, looks for smiles in
each face with a second classifier, and writes a PNG snapshot when it decides that everybody
is smiling, up to a fixed number of pictures. The program loops until the `q` key is pressed.

This project models the state that `EmotionDetector` keeps and the decisions taken on it:

- `optional.dfy` — `Option`, used for the "everybody smiles" flag that may never have been set.
- `emotion_detector.dfy` — module `EmotionDetector`. `Detector` holds the remaining picture
  quota, the face count of the last detection and the flag. `Detect` is the decision part of
  `detect()`: record the face count, run `__getSmiles` once per face, read the flag, and call
  `__take_picture` when it is true. The face classifier's result is modelled as its length and
  the smile classifier's result as its length. So one detection is a `seq<nat>` of per-face
  smile counts.
- `picture_name.dfy` — module `PictureName`: the name `frame_<stamp>.png`, where every `.` of
  the clock reading is replaced by `_`.
- `stop_key.dfy` — module `StopKey`: the test `key & 0xFF == ord('q')` of `main()`. Python's
  `&` on unbounded two's-complement integers is defined bit by bit and proved equal to the
  remainder modulo 256.
- `main_loop.dfy` — module `MainLoop`: the `while` loop of `main()`. It runs over a finite
  sequence of per-iteration observations (smile counts, clock reading, key code). It records the
  file names passed to `imwrite`, the calls of `closeCapture`, and whether the loop is still
  running, stopped on the key, or ended by the failed flag read. The result of `imwrite` is
  ignored by the program, so a write that fails still uses up quota.

The model follows the code as written, which differs from its opening comment in three ways:

- **Last face wins.** `__getSmiles` overwrites the flag once per face. Only the last face's
  smile count, compared with the number of faces, decides the flag. It is not the smile total
  across faces.
- **No face leaves the flag stale.** With no face, `__getSmiles` is never called, so the flag
  keeps the value of an earlier detection. It is not "vacuously true".
- **The flag can be unset.** The constructor sets `__everybody_smiling`, but the getter reads
  `__everybody_smiles`. A first detection with no face therefore raises at the read on line 143,
  which ends the program without calling `closeCapture`. `MainLoop.CrashesIffFirstSeesNoFace`
  shows that this is the only way the flag read at line 143 can fail in a run from a fresh
  detector.

Also as written: only lower-case `q` stops the loop, although the program prints "Press 'Q'".
Picture names are not guaranteed unique. A clock reading never contains `_`, and among such
readings the name determines the reading (`PictureName.NameInjective`). So two pictures get the
same name exactly when the clock gives the same reading twice, which the program does not
prevent.

## Model

| member | source | states |
|---|---|---|
| `EmotionDetector.Init` | say_cheese.py:20-22 | the constructor sets the given quota and no face; the flag that is read starts unset, so a detection with no face right after construction fails reading it |
| `EmotionDetector.GetSmiles` | say_cheese.py:62-69 | one smile-classifier result sets the flag to "its smile count equals the recorded face count"; quota and face count are untouched |
| `EmotionDetector.SmilesLoop` | say_cheese.py:88-95 | after the per-face loop, the flag is decided by the last face alone (its count equals the face count); with no face the flag is unchanged |
| `EmotionDetector.DrawFaceFeatures` | say_cheese.py:84-95 | the stored face count becomes this detection's number of faces, and the flag is the last face's verdict against that count, or the old flag when there is no face |
| `EmotionDetector.TakePicture` | say_cheese.py:55-59 | a picture is written iff quota is left; when written, its name is the timestamp file name and the quota drops by exactly one; otherwise the state is unchanged |
| `EmotionDetector.Detect` | say_cheese.py:127-144 | the face count is never stale; the flag read fails iff no face is seen and none has ever been; no face keeps the flag; some face makes the last face decide; a picture is written iff the new flag is true and quota > 0, costing exactly one unit |
| `EmotionDetector.LastFaceWins` | say_cheese.py:62-95 | the smile counts of all faces but the last have no effect on a detection's outcome |
| `EmotionDetector.NotTotalSmiles` | say_cheese.py:62-69 | two detections with the same smile total (2+0 and 0+2 over two faces) give opposite flags |
| `PictureName.ReplaceDots` | say_cheese.py:58 | the replaced stamp has the same length, has '_' where the stamp has '.', agrees with the stamp elsewhere, and contains no '.' |
| `PictureName.FileName` | say_cheese.py:58 | the name is `frame_`, then the stamp position by position with '.' turned into '_', then `.png`; its only '.' is the one before the extension |
| `PictureName.DotFreeUnchanged` | say_cheese.py:58 | a stamp without '.' appears verbatim in the name |
| `PictureName.ReplaceDotsIdempotent` | say_cheese.py:58 | replacing dots twice equals replacing once |
| `PictureName.SeparatorCollision` | say_cheese.py:58 | on arbitrary text the replacement loses information: stamps that differ only in '.' versus '_' give the same file name |
| `PictureName.NameInjective` | say_cheese.py:58 | for stamps without '_' (as clock readings are), equal file names mean equal stamps |
| `StopKey.MaskIsMod` | say_cheese.py:167 | Python's `key & 0xFF`, defined bit by bit on two's-complement integers (a negative key as the complement of `-key - 1`), equals the key modulo 256 for every key |
| `StopKey.LowByte` | say_cheese.py:167 | Python's `key & 0xFF`, computed bit by bit on the two's-complement key (negative keys included), is a byte and equals the key modulo 256 |
| `StopKey.ShouldStop` | say_cheese.py:167 | the loop stops after a key exactly when the key modulo 256 is 113 ('q') |
| `StopKey.StopsIff` | say_cheese.py:167 | a key code stops the loop iff its low byte is 113 ('q'), whatever its higher bits |
| `StopKey.PrintedKeyIgnored` | say_cheese.py:161-167 | 'q' stops; the printed 'Q' (81) does not; "no key" (-1, masked to 255) does not |
| `MainLoop.Start` | say_cheese.py:154-158 | before the first iteration the loop runs, nothing is written or released, the flag is unset, and the quota bookkeeping holds for the configured quota |
| `MainLoop.Iterate` | say_cheese.py:162-169 | one iteration crashes iff the flag read fails; otherwise it stops iff the key is the stop key, and then calls `closeCapture` once more; the detector is as `detect()` left it; the file name `detect()` wrote, if any, is appended, and nothing on a crash |
| `MainLoop.Run` | say_cheese.py:162-169 | an ended run stays ended; a run uses at most one observation per iteration, and all of them if it keeps looping; file names are only appended, at most one per iteration; releases never decrease |
| `MainLoop.IterateKeepsQuota` | say_cheese.py:55-59 | one iteration keeps "pictures written + quota left = initial quota", non-negativity of a non-negative quota, and "no picture when the initial quota is <= 0" |
| `MainLoop.RunKeepsQuota` | say_cheese.py:162-164 | the same quota bookkeeping holds after any number of iterations |
| `MainLoop.PicturesWithinQuota` | say_cheese.py:57-59 | from a fresh detector with quota q, the quota left stays >= 0 and at most q `imwrite` calls happen when q >= 0; with q <= 0 none happens |
| `MainLoop.MainWritesAtMostOne` | say_cheese.py:156 | the program as configured (quota 1) writes at most one picture in any run |
| `MainLoop.ReleasedOnlyOnStop` | say_cheese.py:166-169 | `closeCapture` is called exactly once if the loop stopped on the key and never otherwise |
| `MainLoop.KeysRead` | say_cheese.py:162-169 | every iteration of a run but the last read a key that does not stop; the last read a stopping key exactly when the run stopped |
| `MainLoop.RunEnds` | say_cheese.py:162-169 | a run keeps looping only if no key among all its inputs stops it; a stopped run ended right after the first stopping key; every earlier key did not stop |
| `MainLoop.FlagSetNeverCrashes` | say_cheese.py:143 | once the flag has been set, no later iteration can fail reading it |
| `MainLoop.CrashesIffFirstSeesNoFace` | say_cheese.py:20-44 | a fresh detector's run crashes iff its very first detection finds no face |
| `MainLoop.TwoOfThree` | say_cheese.py:55-59 | with quota 2 and three iterations where one face smiles once, exactly the first two iterations write pictures (named after their stamps) and the quota ends at 0 |

## Left out

- Face and smile detection (`detectMultiScale`): a foreign classifier library. Each detection is
  an input, the sequence of per-face smile counts.
- Camera and window I/O (`VideoCapture`, `read`, `imshow`, the side effects of `waitKey`) and
  the pictures' pixel content: the aliasing `clean_frame = frame` means saved pictures include
  the drawn rectangles. Neither touches the modelled state.
- Gray conversion, region slicing and rectangle drawing: pixel work only.
- `time.time()` and the float-to-text conversion: the clock reading's text is an arbitrary
  input string.
- The warm-up in `__delay_camera`, run at the start of every `detect()`: frame reads and sleeps.
  Each read also calls `waitKey(1)`, which can consume a key press before the loop's own poll.
  The model takes the key code the loop's poll returns as an arbitrary input, so a swallowed
  press is one that input does not show.
- Other exceptions that end the program: a failed camera read hands `None` to the gray
  conversion, because `__getNewFrame` drops `read()`'s success flag; a cascade file that did not
  load makes detection fail. Both depend on the camera and the classifier library. The model's
  only failure is the flag read at line 143.
- Whether `imwrite` succeeded: the program ignores its result. The model records each call
  and its file name, not a file on disk.
- The unused attribute `__everybody_smiling` set by the constructor: nothing reads it, so the
  model has no field for it. Its effect is that the flag that is read starts unset.
- Classifier paths, colours and the window title: constants with no effect on the state.
- The program's endless loop is modelled over finite input sequences. Each run is a prefix of an
  execution, and every property holds after every prefix.
