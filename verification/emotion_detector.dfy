/**
 * The bookkeeping of one `EmotionDetector`: how many pictures may still be taken, how many
 * faces the last detection found, and the "everybody smiles" flag, together with one call of
 * `detect()`. The cascade classifiers are not modelled: one detection is given as the sequence
 * of smile counts the smile classifier reports, one entry per detected face, in the face
 * classifier's order.
 */
module EmotionDetector {
  import opened Optional
  import PictureName

  /**
   * The detector's state. The constructor initialises a flag attribute under a different name
   * from the one the getter reads, so the flag that is read starts out unset (`None`).
   */
  datatype Detector = Detector(picturesToTake: int, numberOfFaces: nat, everybodySmiles: Option<bool>)

  /**
   * The state left by the constructor: the given quota, no face yet, and a flag that was never
   * set, so a first detection that sees no face fails reading it.
   */
  function Init(numberOfPicturesToTake: int): (d: Detector)
    ensures d.picturesToTake == numberOfPicturesToTake && d.numberOfFaces == 0
    ensures forall stamp :: Detect(d, [], stamp).FlagUnset?
  {
    Detector(numberOfPicturesToTake, 0, None)
  }

  /** Outcome of one `detect()` call: the picture it wrote, if any, or the failed read of the flag. */
  datatype DetectResult =
    | Detected(detector: Detector, picture: Option<string>)
    | FlagUnset(detector: Detector)

  /** The state and the picture (if one was written) after `__take_picture`. */
  datatype Shot = Shot(detector: Detector, picture: Option<string>)

  /** One call of `__getSmiles` for a face on which the smile classifier found `smiles` smiles. */
  function GetSmiles(d: Detector, smiles: nat): (r: Detector)
    ensures r.picturesToTake == d.picturesToTake && r.numberOfFaces == d.numberOfFaces
    ensures r.everybodySmiles.Some?
    ensures r.everybodySmiles.value <==> smiles == d.numberOfFaces
  {
    d.(everybodySmiles := Some(smiles == d.numberOfFaces))
  }

  /**
   * The per-face loop of `__draw_face_features_rectangles`: `__getSmiles` for each face in
   * turn, each call overwriting the flag. Only the last face's count survives.
   */
  function SmilesLoop(d: Detector, smileCounts: seq<nat>): (r: Detector)
    ensures r.picturesToTake == d.picturesToTake && r.numberOfFaces == d.numberOfFaces
    ensures |smileCounts| == 0 ==> r.everybodySmiles == d.everybodySmiles
    ensures |smileCounts| > 0 ==> r.everybodySmiles == Some(smileCounts[|smileCounts| - 1] == d.numberOfFaces)
    decreases |smileCounts|
  {
    if |smileCounts| == 0 then d
    else SmilesLoop(GetSmiles(d, smileCounts[0]), smileCounts[1..])
  }

  /** `__draw_face_features_rectangles` without the drawing: record the face count, then run the loop. */
  function DrawFaceFeatures(d: Detector, smileCounts: seq<nat>): (r: Detector)
    ensures r.numberOfFaces == |smileCounts|
    ensures r.picturesToTake == d.picturesToTake
    ensures |smileCounts| == 0 ==> r.everybodySmiles == d.everybodySmiles
    ensures |smileCounts| > 0 ==> r.everybodySmiles == Some(smileCounts[|smileCounts| - 1] == |smileCounts|)
  {
    SmilesLoop(d.(numberOfFaces := |smileCounts|), smileCounts)
  }

  /** `__take_picture`: write a picture named after the clock reading and spend one unit of quota, if any is left. */
  function TakePicture(d: Detector, stamp: string): (r: Shot)
    ensures r.picture.Some? <==> d.picturesToTake > 0
    ensures r.picture.Some? ==> r.picture.value == PictureName.FileName(stamp)
    ensures r.picture.Some? ==> r.detector == d.(picturesToTake := d.picturesToTake - 1)
    ensures r.picture.None? ==> r.detector == d
  {
    if d.picturesToTake > 0 then Shot(d.(picturesToTake := d.picturesToTake - 1), Some(PictureName.FileName(stamp)))
    else Shot(d, None)
  }

  /**
   * The decision part of `detect()`: count faces, recompute the flag, read it, and take a
   * picture if it is true. Reading a flag that was never set raises, which ends the program.
   */
  function Detect(d: Detector, smileCounts: seq<nat>, stamp: string): (r: DetectResult)
    // the face count is this detection's, never a stale one
    ensures r.detector.numberOfFaces == |smileCounts|
    // the read fails exactly when no face has been seen yet and none is seen now
    ensures r.FlagUnset? <==> |smileCounts| == 0 && d.everybodySmiles.None?
    ensures r.FlagUnset? ==> r.detector.picturesToTake == d.picturesToTake
    // no face: the flag keeps its old value
    ensures |smileCounts| == 0 ==> r.detector.everybodySmiles == d.everybodySmiles
    // some face: the last face alone decides the flag
    ensures |smileCounts| > 0 ==> r.detector.everybodySmiles == Some(smileCounts[|smileCounts| - 1] == |smileCounts|)
    // a picture is written exactly when the flag is true and quota is left
    ensures r.Detected? ==> (r.picture.Some? <==> r.detector.everybodySmiles == Some(true) && d.picturesToTake > 0)
    ensures r.Detected? && r.picture.Some? ==>
              r.picture.value == PictureName.FileName(stamp) && r.detector.picturesToTake == d.picturesToTake - 1
    ensures r.Detected? && r.picture.None? ==> r.detector.picturesToTake == d.picturesToTake
  {
    var drawn := DrawFaceFeatures(d, smileCounts);
    match drawn.everybodySmiles
    case None => FlagUnset(drawn)
    case Some(false) => Detected(drawn, None)
    case Some(true) =>
      var shot := TakePicture(drawn, stamp);
      Detected(shot.detector, shot.picture)
  }

  /** The smile counts of all faces but the last have no effect on the outcome of a detection. */
  lemma LastFaceWins(d: Detector, earlier: seq<nat>, earlier': seq<nat>, last: nat, stamp: string)
    requires |earlier| == |earlier'|
    ensures Detect(d, earlier + [last], stamp) == Detect(d, earlier' + [last], stamp)
  {
  }

  /**
   * The flag is not "the smile total equals the face count": two faces with two smiles on the
   * first and none on the second give a false flag, and the reverse order gives a true one.
   */
  lemma NotTotalSmiles(d: Detector, stamp: string)
    ensures Detect(d, [2, 0], stamp).detector.everybodySmiles == Some(false)
    ensures Detect(d, [0, 2], stamp).detector.everybodySmiles == Some(true)
  {
  }

}
