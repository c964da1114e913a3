/**
 * The driving loop of `main()`: call `detect()`, then poll the keyboard and stop (calling
 * `closeCapture`) when the stop key was pressed. Each iteration's outside world — the smile counts
 * of the detection, the clock reading and the key code — is one `Observation`. A run over a finite
 * sequence of observations is a prefix of the program's unbounded loop.
 */
module MainLoop {
  import opened Optional
  import opened EmotionDetector
  import PictureName
  import StopKey

  /** The quota `main()` passes to the detector. */
  const NumberOfPictures: int := 1

  /** What one iteration observes from the outside world. */
  datatype Observation = Observation(smileCounts: seq<nat>, stamp: string, key: int)

  /** `Looping` while the loop goes on; `Stopped` after the stop key; `Crashed` after the flag read failed. */
  datatype Status = Looping | Stopped | Crashed

  /**
   * The program's observable state: the detector, the file names passed to `imwrite` so far
   * (its result is ignored, so a failed write counts the same), how many times `closeCapture`
   * was called, and how many iterations have run.
   */
  datatype Session = Session(detector: Detector, pictures: seq<string>, releases: nat, iterations: nat, status: Status)

  /** The state before the first iteration, for a detector created with quota `quota`. */
  function Start(quota: int): (s: Session)
    ensures s.status == Looping && s.iterations == 0
    ensures s.pictures == [] && s.releases == 0
    ensures s.detector.everybodySmiles.None?
    ensures QuotaAccounted(s, quota)
  {
    Session(Init(quota), [], 0, 0, Looping)
  }

  /** The pictures written by one detection, as a sequence. */
  function Written(picture: Option<string>): (names: seq<string>)
    ensures |names| <= 1
    ensures picture.None? <==> names == []
    ensures picture.Some? ==> names == [picture.value]
  {
    match picture
    case None => []
    case Some(name) => [name]
  }

  /** One iteration of the `while` loop of `main()`. */
  function Iterate(s: Session, o: Observation): (r: Session)
    requires s.status == Looping
    ensures r.iterations == s.iterations + 1
    // the run crashes exactly when the flag read fails
    ensures r.status == Crashed <==> Detect(s.detector, o.smileCounts, o.stamp).FlagUnset?
    // otherwise it stops exactly on the stop key, releasing the camera once
    ensures r.status == Stopped <==> Detect(s.detector, o.smileCounts, o.stamp).Detected? && StopKey.ShouldStop(o.key)
    ensures r.releases == s.releases + (if r.status == Stopped then 1 else 0)
    // the key poll does not touch the detector or the pictures: both are as `detect()` left them
    ensures r.detector == Detect(s.detector, o.smileCounts, o.stamp).detector
    ensures var dr := Detect(s.detector, o.smileCounts, o.stamp);
      r.pictures == s.pictures + (if dr.Detected? then Written(dr.picture) else [])
    ensures |s.pictures| <= |r.pictures| <= |s.pictures| + 1
  {
    match Detect(s.detector, o.smileCounts, o.stamp)
    case FlagUnset(d) =>
      s.(detector := d, iterations := s.iterations + 1, status := Crashed)
    case Detected(d, picture) =>
      var pictures := s.pictures + Written(picture);
      if StopKey.ShouldStop(o.key) then
        Session(d, pictures, s.releases + 1, s.iterations + 1, Stopped)
      else
        Session(d, pictures, s.releases, s.iterations + 1, Looping)
  }

  /** The loop run over `observations`, until it stops, crashes or the observations are used up. */
  function Run(s: Session, observations: seq<Observation>): (r: Session)
    // a run that has ended stays ended
    ensures s.status != Looping ==> r == s
    // it consumes at most one observation per iteration, and all of them if it keeps looping
    ensures s.iterations <= r.iterations <= s.iterations + |observations|
    ensures s.status == Looping && r.status == Looping ==> r.iterations == s.iterations + |observations|
    // pictures are only ever appended, at most one per iteration
    ensures |s.pictures| <= |r.pictures| <= |s.pictures| + (r.iterations - s.iterations)
    ensures r.pictures[..|s.pictures|] == s.pictures
    ensures s.releases <= r.releases
    decreases |observations|
  {
    if s.status != Looping || |observations| == 0 then s
    else Run(Iterate(s, observations[0]), observations[1..])
  }

  /**
   * The quota bookkeeping, relative to the quota `quota` given to the constructor: every
   * picture written cost one unit, a non-negative quota never goes negative, and a quota of
   * zero or less never lets a picture through.
   */
  ghost predicate QuotaAccounted(s: Session, quota: int)
  {
    && |s.pictures| + s.detector.picturesToTake == quota
    && (quota >= 0 ==> s.detector.picturesToTake >= 0)
    && (quota <= 0 ==> |s.pictures| == 0)
  }

  /** One iteration keeps the quota bookkeeping. */
  lemma IterateKeepsQuota(s: Session, o: Observation, quota: int)
    requires s.status == Looping
    requires QuotaAccounted(s, quota)
    ensures QuotaAccounted(Iterate(s, o), quota)
  {
  }

  /** A run keeps the quota bookkeeping. */
  lemma {:induction false} RunKeepsQuota(s: Session, observations: seq<Observation>, quota: int)
    requires QuotaAccounted(s, quota)
    ensures QuotaAccounted(Run(s, observations), quota)
    decreases |observations|
  {
    if s.status == Looping && |observations| > 0 {
      IterateKeepsQuota(s, observations[0], quota);
      RunKeepsQuota(Iterate(s, observations[0]), observations[1..], quota);
    }
  }

  /**
   * From a fresh detector with quota `quota`, however the run goes, the quota left stays
   * non-negative, at most `quota` pictures are written, and none at all when `quota <= 0`.
   */
  lemma PicturesWithinQuota(quota: int, observations: seq<Observation>)
    ensures quota >= 0 ==> Run(Start(quota), observations).detector.picturesToTake >= 0
    ensures quota >= 0 ==> |Run(Start(quota), observations).pictures| <= quota
    ensures quota <= 0 ==> Run(Start(quota), observations).pictures == []
    ensures |Run(Start(quota), observations).pictures| + Run(Start(quota), observations).detector.picturesToTake == quota
  {
    RunKeepsQuota(Start(quota), observations, quota);
  }

  /** The program as shipped writes at most one picture. */
  lemma MainWritesAtMostOne(observations: seq<Observation>)
    ensures |Run(Start(NumberOfPictures), observations).pictures| <= 1
  {
    PicturesWithinQuota(NumberOfPictures, observations);
  }

  /** `closeCapture` is called once when the loop stops on the key, and never otherwise. */
  lemma {:induction false} ReleasedOnlyOnStop(s: Session, observations: seq<Observation>)
    requires s.releases == (if s.status == Stopped then 1 else 0)
    ensures Run(s, observations).releases == (if Run(s, observations).status == Stopped then 1 else 0)
    decreases |observations|
  {
    if s.status == Looping && |observations| > 0 {
      ReleasedOnlyOnStop(Iterate(s, observations[0]), observations[1..]);
    }
  }

  /**
   * The keys a run has read: every iteration before the last one read a key that does not stop;
   * the last one read a stopping key exactly when the run stopped.
   */
  lemma {:induction false} KeysRead(s: Session, observations: seq<Observation>)
    requires s.status == Looping
    ensures var n := Run(s, observations).iterations - s.iterations;
      forall i :: 0 <= i < n - 1 ==> !StopKey.ShouldStop(observations[i].key)
    ensures var r := Run(s, observations); var n := r.iterations - s.iterations;
      r.status == Looping && n > 0 ==> !StopKey.ShouldStop(observations[n - 1].key)
    ensures var r := Run(s, observations); var n := r.iterations - s.iterations;
      r.status == Stopped ==> n > 0 && StopKey.ShouldStop(observations[n - 1].key)
    decreases |observations|
  {
    if |observations| > 0 {
      var s' := Iterate(s, observations[0]);
      var rest := observations[1..];
      if s'.status == Looping {
        KeysRead(s', rest);
        var n' := Run(s', rest).iterations - s'.iterations;
        assert Run(s, observations) == Run(s', rest);
        forall i | 0 <= i < n'
          ensures !StopKey.ShouldStop(observations[i].key)
        {
          if i > 0 {
            assert observations[i] == rest[i - 1];
          }
        }
        if n' > 0 {
          assert observations[n'] == rest[n' - 1];
        }
      }
    }
  }

  /**
   * How a run ends, in terms of the keys: it uses up all observations and keeps looping only when no
   * key stops it; it stops right after the first iteration whose key is the stop key; every
   * iteration before the last one had a key that does not stop.
   */
  lemma RunEnds(s: Session, observations: seq<Observation>)
    requires s.status == Looping
    ensures var r := Run(s, observations);
      && s.iterations <= r.iterations <= s.iterations + |observations|
      && (forall i :: 0 <= i < r.iterations - s.iterations - 1 ==> !StopKey.ShouldStop(observations[i].key))
      && (r.status == Looping ==>
            r.iterations == s.iterations + |observations| && forall i :: 0 <= i < |observations| ==> !StopKey.ShouldStop(observations[i].key))
      && (r.status == Stopped ==>
            r.iterations > s.iterations && StopKey.ShouldStop(observations[r.iterations - s.iterations - 1].key))
  {
    KeysRead(s, observations);
  }

  /** Once a face has been seen the flag stays set, so the run cannot crash any more. */
  lemma {:induction false} FlagSetNeverCrashes(s: Session, observations: seq<Observation>)
    requires s.status != Crashed
    requires s.detector.everybodySmiles.Some?
    ensures Run(s, observations).status != Crashed
    decreases |observations|
  {
    if s.status == Looping && |observations| > 0 {
      FlagSetNeverCrashes(Iterate(s, observations[0]), observations[1..]);
    }
  }

  /**
   * A fresh detector crashes exactly when the very first detection sees no face: the flag it
   * reads was never set. Any face in the first detection sets the flag for good.
   */
  lemma CrashesIffFirstSeesNoFace(quota: int, observations: seq<Observation>)
    ensures Run(Start(quota), observations).status == Crashed <==> |observations| > 0 && |observations[0].smileCounts| == 0
  {
    if |observations| > 0 {
      var s' := Iterate(Start(quota), observations[0]);
      if |observations[0].smileCounts| > 0 && s'.status == Looping {
        FlagSetNeverCrashes(s', observations[1..]);
      }
    }
  }

  /**
   * Quota 2 and three iterations in which one face smiles once: the first two iterations each
   * write a picture, the third writes none.
   */
  lemma TwoOfThree(a: string, b: string, c: string)
    ensures var observations := [Observation([1], a, StopKey.NoKey), Observation([1], b, StopKey.NoKey), Observation([1], c, StopKey.NoKey)];
      var r := Run(Start(2), observations);
      && r.pictures == [PictureName.FileName(a), PictureName.FileName(b)]
      && r.detector.picturesToTake == 0
      && r.status == Looping
  {
    StopKey.PrintedKeyIgnored();
    var o1, o2, o3 := Observation([1], a, StopKey.NoKey), Observation([1], b, StopKey.NoKey), Observation([1], c, StopKey.NoKey);
    var s1 := Iterate(Start(2), o1);
    var s2 := Iterate(s1, o2);
    var s3 := Iterate(s2, o3);
    assert [o1, o2, o3][1..] == [o2, o3];
    assert [o2, o3][1..] == [o3];
    assert s1.status == Looping && s1.pictures == [PictureName.FileName(a)];
    assert s2.status == Looping && s2.pictures == [PictureName.FileName(a), PictureName.FileName(b)];
    assert Run(Start(2), [o1, o2, o3]) == Run(s1, [o2, o3]);
    assert Run(s1, [o2, o3]) == Run(s2, [o3]);
    assert Run(s2, [o3]) == Run(s3, []);
  }

}
