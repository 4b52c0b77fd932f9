/**
 * The two frame loops of the program and the expression-change test.
 *
 * The computer-vision library is not part of this model; what it computes
 * enters as inputs:
 *  - a video is the sequence of frames its capture yields, and reading past
 *    its end yields an empty frame;
 *  - `detect(f)` is the list of face rectangles the cascade classifier finds
 *    in the grey image of frame f;
 *  - `difference(p, c, rp, rc)` is the mean absolute intensity difference
 *    between region rp of the grey image of p and region rc of the grey
 *    image of c;
 *  - `outline(f, r)` is frame f with rectangle r drawn on it.
 * The grey image of a frame has the frame's size and depends on nothing
 * else, so the model keeps the frame itself where the program keeps its
 * grey image.
 */
module Video {
  import opened Geometry
  import opened FileNames

  /** A decoded frame: its size and its pixels. */
  datatype Frame = Frame(size: Size, pixels: seq<int>) {
    /** A matrix with no elements. */
    predicate Empty() { size.width == 0 || size.height == 0 }
  }

  /** A freshly constructed matrix, before anything is read into it. */
  const NoFrame: Frame := Frame(Size(0, 0), [])

  /** The threshold above which a mean intensity difference counts as a change. */
  const ChangeThreshold: real := 5.0

  /** Frame i of the capture; past the end the capture yields an empty frame. */
  function ReadFrame(video: seq<Frame>, i: nat): (f: Frame)
    ensures i < |video| ==> f == video[i]
    ensures i >= |video| ==> f.Empty()
  {
    if i < |video| then video[i] else NoFrame
  }

  /**
   * The number of frames a loop processes: the frames before the first empty
   * one, or all of them.
   */
  function FrameCount(video: seq<Frame>): (n: nat)
    ensures n <= |video|
    ensures forall k :: 0 <= k < n ==> !video[k].Empty()
    ensures n < |video| ==> video[n].Empty()
  {
    if video == [] || video[0].Empty() then 0
    else
      var rest := FrameCount(video[1..]);
      assert forall k :: 1 <= k < 1 + rest ==> video[k] == video[1..][k - 1];
      1 + rest
  }

  // ---------------------------------------------------------------------
  // Writing image files

  /** One image written to the output folder: the file name and the image. */
  type Write = (string, Frame)

  /**
   * The output folder after a sequence of image writes, starting from the
   * files it already held (a folder that exists is kept with its files): a
   * write to a name that is already there replaces the earlier image.
   */
  function Folder(initial: map<string, Frame>, writes: seq<Write>): map<string, Frame>
  {
    if writes == [] then initial
    else Folder(initial, writes[..|writes| - 1])[writes[|writes| - 1].0 := writes[|writes| - 1].1]
  }

  /** The names a sequence of writes writes to. */
  function Names(writes: seq<Write>): set<string>
  {
    set i | 0 <= i < |writes| :: writes[i].0
  }

  predicate DistinctNames(writes: seq<Write>)
  {
    forall i, j :: 0 <= i < j < |writes| ==> writes[i].0 != writes[j].0
  }

  /** The names of a nonempty sequence of writes: those before the last, and the last. */
  lemma NamesOfLast(writes: seq<Write>)
    requires writes != []
    ensures Names(writes) == Names(writes[..|writes| - 1]) + {writes[|writes| - 1].0}
  {
    var n := |writes| - 1;
    assert Names(writes) == Names(writes[..n]) + {writes[n].0};
  }

  /** Distinct names stay distinct without the last write, which none of the others shares. */
  lemma DistinctNamesOfLast(writes: seq<Write>)
    requires writes != [] && DistinctNames(writes)
    ensures DistinctNames(writes[..|writes| - 1]) && writes[|writes| - 1].0 !in Names(writes[..|writes| - 1])
  {
    var n := |writes| - 1;
    var init := writes[..n];
    forall i, j | 0 <= i < j < n ensures init[i].0 != init[j].0 {
      assert init[i] == writes[i] && init[j] == writes[j];
    }
    forall i | 0 <= i < n ensures init[i].0 != writes[n].0 {
      assert init[i] == writes[i];
    }
  }

  /**
   * The folder holds exactly the names it held before and the names written
   * to, and a file not written to keeps its earlier image.
   */
  lemma {:induction false} FolderNames(initial: map<string, Frame>, writes: seq<Write>)
    ensures Folder(initial, writes).Keys == initial.Keys + Names(writes)
    ensures forall name :: name in initial.Keys - Names(writes) ==> Folder(initial, writes)[name] == initial[name]
  {
    if writes != [] {
      FolderNames(initial, writes[..|writes| - 1]);
      NamesOfLast(writes);
    }
  }

  /**
   * When no two writes share a name, nothing written is overwritten: every
   * write's image is in the folder under its name.
   */
  lemma {:induction false} FolderKeepsEveryWrite(initial: map<string, Frame>, writes: seq<Write>)
    requires DistinctNames(writes)
    ensures forall i :: 0 <= i < |writes| ==>
      writes[i].0 in Folder(initial, writes) && Folder(initial, writes)[writes[i].0] == writes[i].1
  {
    if writes != [] {
      var n := |writes| - 1;
      var init := writes[..n];
      DistinctNamesOfLast(writes);
      FolderKeepsEveryWrite(initial, init);
      forall i | 0 <= i < n
        ensures writes[i].0 in Folder(initial, writes) && Folder(initial, writes)[writes[i].0] == writes[i].1
      {
        assert writes[i] == init[i];
      }
    }
  }

  /**
   * When no two writes share a name and none of the names was in the folder
   * before, the folder gains exactly one file per write.
   */
  lemma {:induction false} FolderSize(initial: map<string, Frame>, writes: seq<Write>)
    requires DistinctNames(writes)
    requires initial.Keys !! Names(writes)
    ensures |Folder(initial, writes)| == |initial| + |writes|
  {
    if writes != [] {
      var n := |writes| - 1;
      var init := writes[..n];
      NamesOfLast(writes);
      DistinctNamesOfLast(writes);
      FolderSize(initial, init);
      FolderNames(initial, init);
      assert writes[n].0 !in Folder(initial, init);
    }
  }

  /** Writes named after pairwise distinct frame indices have distinct names. */
  lemma FrameNamesDistinct(writes: seq<Write>, indices: seq<nat>)
    requires |writes| == |indices|
    requires forall i :: 0 <= i < |writes| ==> writes[i].0 == FrameFileName(indices[i])
    requires forall i, j :: 0 <= i < j < |indices| ==> indices[i] != indices[j]
    ensures DistinctNames(writes)
  {
    FrameFileNameInjective();
  }

  // ---------------------------------------------------------------------
  // Extracting every frame

  /**
   * Writes every frame of the video to its own file, numbered from 0, and
   * returns the writes in order and the final frame counter. A capture that
   * cannot be opened writes nothing.
   */
  method ExtractFrames(isOpen: bool, video: seq<Frame>) returns (writes: seq<Write>, frameNumber: nat)
    ensures frameNumber == if isOpen then FrameCount(video) else 0
    ensures |writes| == frameNumber
    ensures forall k :: 0 <= k < frameNumber ==> writes[k] == (FrameFileName(k), video[k])
    ensures DistinctNames(writes)
  {
    writes, frameNumber := [], 0;
    if !isOpen {
      return;
    }
    ghost var indices: seq<nat> := [];
    while true
      invariant frameNumber <= FrameCount(video)
      invariant |writes| == |indices| == frameNumber
      invariant forall k :: 0 <= k < frameNumber ==> indices[k] == k && writes[k] == (FrameFileName(k), video[k])
      decreases |video| - frameNumber
    {
      var frame := ReadFrame(video, frameNumber);
      if frame.Empty() {
        break;
      }
      writes := writes + [(FrameFileName(frameNumber), frame)];
      indices := indices + [frameNumber];
      frameNumber := frameNumber + 1;
    }
    FrameNamesDistinct(writes, indices);
  }

  /**
   * The folder the extracting loop leaves, whatever it held before: frame k,
   * for every k below the final counter, is there under its own name, since
   * no later frame overwrites it.
   */
  lemma ExtractedFolder(initial: map<string, Frame>, video: seq<Frame>, writes: seq<Write>, frameNumber: nat)
    requires frameNumber <= |video| && |writes| == frameNumber
    requires forall k :: 0 <= k < frameNumber ==> writes[k] == (FrameFileName(k), video[k])
    ensures forall k :: 0 <= k < frameNumber ==>
      FrameFileName(k) in Folder(initial, writes) && Folder(initial, writes)[FrameFileName(k)] == video[k]
  {
    FrameNamesDistinct(writes, seq(frameNumber, k => k));
    FolderKeepsEveryWrite(initial, writes);
  }

  // ---------------------------------------------------------------------
  // The expression-change test

  /**
   * The program's test for a change of expression between the stored frame
   * and the current one: there is at least one face, both frames have the
   * same size, and for some face the mean intensity difference of its mouth
   * regions exceeds the threshold.
   */
  ghost predicate ExpressionChanged(
    previous: Frame, current: Frame, faces: seq<Rect>, difference: (Frame, Frame, Rect, Rect) -> real)
  {
    && |faces| > 0
    && previous.size == current.size
    && exists i :: 0 <= i < |faces| &&
         difference(previous, current, MouthRegion(previous.size, faces[i]), MouthRegion(current.size, faces[i]))
           > ChangeThreshold
  }

  /**
   * Compares the mouth regions of the faces pair by pair and reports a change
   * at the first pair whose difference exceeds the threshold.
   */
  method DetectExpressionChange(
    previous: Frame, current: Frame, faces: seq<Rect>, difference: (Frame, Frame, Rect, Rect) -> real)
    returns (changed: bool)
    ensures changed <==> ExpressionChanged(previous, current, faces, difference)
    // The early exits of the source, spelled out although they follow from the line above.
    ensures |faces| == 0 || previous.size != current.size ==> !changed
  {
    if |faces| > 0 && previous.size == current.size {
      var before := MouthRegions(previous.size, faces);
      var after := MouthRegions(current.size, faces);
      for i := 0 to |before|
        invariant forall j :: 0 <= j < i ==> difference(previous, current, before[j], after[j]) <= ChangeThreshold
      {
        if difference(previous, current, before[i], after[i]) > ChangeThreshold {
          return true;
        }
      }
    }
    return false;
  }

  // ---------------------------------------------------------------------
  // Selecting the frames where the expression changes

  /** The state the selecting loop carries from one frame to the next. */
  datatype ScanState = ScanState(frameNumber: nat, previous: Frame, saved: seq<nat>)

  const Start: ScanState := ScanState(0, NoFrame, [])

  /**
   * One frame of the selecting loop: without faces only the counter moves;
   * with faces the frame is saved when it is not the first frame and the
   * expression changed since the stored frame, and it becomes the stored frame.
   */
  ghost function Step(
    s: ScanState, frame: Frame, detect: Frame -> seq<Rect>, difference: (Frame, Frame, Rect, Rect) -> real)
    : ScanState
  {
    var faces := detect(frame);
    if |faces| == 0 then s.(frameNumber := s.frameNumber + 1)
    else
      var changed := s.frameNumber > 0 && ExpressionChanged(s.previous, frame, faces, difference);
      ScanState(s.frameNumber + 1, frame, if changed then s.saved + [s.frameNumber] else s.saved)
  }

  /** A Step stores the frame exactly when a face is detected in it. */
  lemma StepPrevious(
    s: ScanState, frame: Frame, detect: Frame -> seq<Rect>, difference: (Frame, Frame, Rect, Rect) -> real)
    ensures Step(s, frame, detect, difference).previous == if detect(frame) == [] then s.previous else frame
  {
  }

  /** The state after the selecting loop has processed `frames`. */
  ghost function Scan(frames: seq<Frame>, detect: Frame -> seq<Rect>, difference: (Frame, Frame, Rect, Rect) -> real)
    : ScanState
  {
    if frames == [] then Start
    else Step(Scan(frames[..|frames| - 1], detect, difference), frames[|frames| - 1], detect, difference)
  }

  /** The frame counter counts the frames processed. */
  lemma {:induction false} ScanCountsFrames(
    frames: seq<Frame>, detect: Frame -> seq<Rect>, difference: (Frame, Frame, Rect, Rect) -> real)
    ensures Scan(frames, detect, difference).frameNumber == |frames|
  {
    if frames != [] {
      ScanCountsFrames(frames[..|frames| - 1], detect, difference);
    }
  }

  /**
   * Frame 0 is never saved, every saved index is that of a processed frame,
   * and the indices are saved in strictly increasing order.
   */
  lemma {:induction false} ScanSavedIncreasing(
    frames: seq<Frame>, detect: Frame -> seq<Rect>, difference: (Frame, Frame, Rect, Rect) -> real)
    ensures var saved := Scan(frames, detect, difference).saved;
      && (forall i :: 0 <= i < |saved| ==> 0 < saved[i] < |frames|)
      && (forall i, j :: 0 <= i < j < |saved| ==> saved[i] < saved[j])
  {
    if frames != [] {
      var init := frames[..|frames| - 1];
      ScanSavedIncreasing(init, detect, difference);
      ScanCountsFrames(init, detect, difference);
    }
  }

  /**
   * Frame k is saved exactly when it is not frame 0, at least one face is
   * detected in it, and the expression changed between the frame stored when
   * it is read and the frame itself. The face condition is also part of the
   * change test; it is spelled out because the loop checks it first.
   */
  lemma {:induction false} ScanSaved(
    frames: seq<Frame>, detect: Frame -> seq<Rect>, difference: (Frame, Frame, Rect, Rect) -> real, k: nat)
    ensures k in Scan(frames, detect, difference).saved
        <==> && 0 < k < |frames|
             && |detect(frames[k])| > 0
             && ExpressionChanged(Scan(frames[..k], detect, difference).previous, frames[k], detect(frames[k]), difference)
  {
    if frames != [] {
      var n := |frames| - 1;
      var init := frames[..n];
      ScanSaved(init, detect, difference, k);
      ScanSavedIncreasing(init, detect, difference);
      ScanCountsFrames(init, detect, difference);
      if k < n {
        assert frames[..k] == init[..k];
      } else if k == n {
        assert frames[..k] == init;
      }
    }
  }

  /**
   * The stored frame is the last frame in which a face was detected, or the
   * initial empty frame when there was none: frames without faces leave it
   * unchanged.
   */
  lemma {:induction false} ScanPrevious(
    frames: seq<Frame>, detect: Frame -> seq<Rect>, difference: (Frame, Frame, Rect, Rect) -> real)
    ensures (forall j :: 0 <= j < |frames| ==> detect(frames[j]) == []) ==>
      Scan(frames, detect, difference).previous == NoFrame
    ensures forall j ::
      (0 <= j < |frames| && detect(frames[j]) != [] && forall l :: j < l < |frames| ==> detect(frames[l]) == [])
      ==> Scan(frames, detect, difference).previous == frames[j]
  {
    if frames != [] {
      var n := |frames| - 1;
      var init := frames[..n];
      ScanPrevious(init, detect, difference);
      StepPrevious(Scan(init, detect, difference), frames[n], detect, difference);
      forall j | 0 <= j < n ensures frames[j] == init[j] { }
    }
  }

  /**
   * The first frame in which a face is detected is never saved: it is
   * compared with the initial empty frame, whose size differs from that of
   * every frame read.
   */
  lemma FirstFaceFrameNotSaved(
    frames: seq<Frame>, detect: Frame -> seq<Rect>, difference: (Frame, Frame, Rect, Rect) -> real, k: nat)
    requires k < |frames| && !frames[k].Empty()
    requires forall j :: 0 <= j < k ==> detect(frames[j]) == []
    ensures k !in Scan(frames, detect, difference).saved
  {
    ScanPrevious(frames[..k], detect, difference);
    forall j | 0 <= j < k ensures frames[..k][j] == frames[j] { }
    var stored := Scan(frames[..k], detect, difference).previous;
    assert stored == NoFrame;
    assert !ExpressionChanged(stored, frames[k], detect(frames[k]), difference) by {
      assert stored.size != frames[k].size;
    }
    ScanSaved(frames, detect, difference, k);
  }

  /** The frame with every detected face outlined, in the order of the faces. */
  function Outlined(frame: Frame, faces: seq<Rect>, outline: (Frame, Rect) -> Frame): Frame
  {
    if faces == [] then frame
    else outline(Outlined(frame, faces[..|faces| - 1], outline), faces[|faces| - 1])
  }

  /** Draws the rectangle of every face on the frame, one after the other. */
  method OutlineFaces(frame: Frame, faces: seq<Rect>, outline: (Frame, Rect) -> Frame) returns (drawn: Frame)
    ensures drawn == Outlined(frame, faces, outline)
  {
    drawn := frame;
    for j := 0 to |faces|
      invariant drawn == Outlined(frame, faces[..j], outline)
    {
      assert faces[..j + 1][..j] == faces[..j];
      drawn := outline(drawn, faces[j]);
    }
    assert faces[..|faces|] == faces;
  }

  /**
   * Processing one more frame of the video is one more Step: a frame without
   * faces only advances the counter; a frame with faces becomes the stored
   * frame and is saved when the change test holds.
   */
  lemma ScanNext(
    video: seq<Frame>, n: nat, detect: Frame -> seq<Rect>, difference: (Frame, Frame, Rect, Rect) -> real,
    previous: Frame, saved: seq<nat>, changed: bool)
    requires n < |video|
    requires Scan(video[..n], detect, difference) == ScanState(n, previous, saved)
    requires changed <==> n > 0 && |detect(video[n])| > 0 && ExpressionChanged(previous, video[n], detect(video[n]), difference)
    ensures Scan(video[..n + 1], detect, difference)
         == ScanState(n + 1, if |detect(video[n])| > 0 then video[n] else previous, if changed then saved + [n] else saved)
  {
    assert video[..n + 1][..n] == video[..n];
  }

  /**
   * The state of the selecting loop after it has processed the first `n`
   * frames: the counter, the stored frame and the saved indices are those of
   * `Scan`, and each saved frame has been written, outlined, under its name.
   */
  ghost predicate Selected(
    video: seq<Frame>, detect: Frame -> seq<Rect>,
    difference: (Frame, Frame, Rect, Rect) -> real, outline: (Frame, Rect) -> Frame,
    n: nat, previous: Frame, saved: seq<nat>, writes: seq<Write>)
  {
    && n <= |video|
    && Scan(video[..n], detect, difference) == ScanState(n, previous, saved)
    && |writes| == |saved|
    && (forall i :: 0 <= i < |saved| ==> saved[i] < n)
    && (forall i :: 0 <= i < |saved| ==>
          writes[i] == (FrameFileName(saved[i]), Outlined(video[saved[i]], detect(video[saved[i]]), outline)))
  }

  /**
   * One pass of the selecting loop over a frame that was read: detect the
   * faces; when there are some, outline them, write the outlined frame when
   * it is not frame 0 and the expression changed, and store the frame.
   */
  method SelectFrame(
    video: seq<Frame>, n: nat, detect: Frame -> seq<Rect>,
    difference: (Frame, Frame, Rect, Rect) -> real, outline: (Frame, Rect) -> Frame,
    previous: Frame, saved: seq<nat>, writes: seq<Write>)
    returns (previous': Frame, saved': seq<nat>, writes': seq<Write>)
    requires n < |video| && Selected(video, detect, difference, outline, n, previous, saved, writes)
    ensures Selected(video, detect, difference, outline, n + 1, previous', saved', writes')
    ensures || (saved' == saved && writes' == writes)
            || (saved' == saved + [n] &&
                writes' == writes + [(FrameFileName(n), Outlined(video[n], detect(video[n]), outline))])
  {
    previous', saved', writes' := previous, saved, writes;
    var frame := video[n];
    var faces := detect(frame);
    var changed := false;
    if |faces| > 0 {
      var drawn := OutlineFaces(frame, faces, outline);
      if n > 0 {
        changed := DetectExpressionChange(previous, frame, faces, difference);
        if changed {
          writes' := writes + [(FrameFileName(n), drawn)];
          saved' := saved + [n];
        }
      }
      previous' := frame;
    }
    ScanNext(video, n, detect, difference, previous, saved, changed);
  }

  /**
   * Runs face detection on every frame and writes, with its faces outlined,
   * each frame whose mouth regions changed since the last frame with faces.
   * Returns the writes in order, the indices of the frames written and the
   * final frame counter.
   */
  method SelectExpressionFrames(
    isOpen: bool, video: seq<Frame>, detect: Frame -> seq<Rect>,
    difference: (Frame, Frame, Rect, Rect) -> real, outline: (Frame, Rect) -> Frame)
    returns (writes: seq<Write>, saved: seq<nat>, frameNumber: nat)
    ensures frameNumber == if isOpen then FrameCount(video) else 0
    ensures saved == if isOpen then Scan(video[..frameNumber], detect, difference).saved else []
    ensures |writes| == |saved|
    ensures forall i :: 0 <= i < |saved| ==> saved[i] < frameNumber
    ensures forall i :: 0 <= i < |saved| ==>
      writes[i] == (FrameFileName(saved[i]), Outlined(video[saved[i]], detect(video[saved[i]]), outline))
    ensures DistinctNames(writes)
  {
    writes, saved, frameNumber := [], [], 0;
    if !isOpen {
      return;
    }
    var previous := NoFrame;
    while true
      invariant frameNumber <= FrameCount(video)
      invariant Selected(video, detect, difference, outline, frameNumber, previous, saved, writes)
      decreases |video| - frameNumber
    {
      var frame := ReadFrame(video, frameNumber);
      if frame.Empty() {
        break;
      }
      previous, saved, writes := SelectFrame(video, frameNumber, detect, difference, outline, previous, saved, writes);
      frameNumber := frameNumber + 1;
    }
    assert saved == Scan(video[..frameNumber], detect, difference).saved;
    ScanSavedIncreasing(video[..frameNumber], detect, difference);
    FrameNamesDistinct(writes, saved);
  }

  /**
   * The folder the selecting loop leaves, whatever it held before: every frame
   * `Scan` saves among the frames read is there under its own name, with its
   * faces outlined.
   */
  lemma SelectedFolder(
    initial: map<string, Frame>, video: seq<Frame>, detect: Frame -> seq<Rect>,
    difference: (Frame, Frame, Rect, Rect) -> real, outline: (Frame, Rect) -> Frame,
    writes: seq<Write>, saved: seq<nat>, frameNumber: nat)
    requires frameNumber <= |video|
    requires saved == Scan(video[..frameNumber], detect, difference).saved
    requires |writes| == |saved|
    requires forall i :: 0 <= i < |saved| ==> saved[i] < frameNumber
    requires forall i :: 0 <= i < |saved| ==>
      writes[i] == (FrameFileName(saved[i]), Outlined(video[saved[i]], detect(video[saved[i]]), outline))
    ensures forall k :: k in saved ==>
      FrameFileName(k) in Folder(initial, writes) &&
      Folder(initial, writes)[FrameFileName(k)] == Outlined(video[k], detect(video[k]), outline)
  {
    assert saved == Scan(video[..frameNumber], detect, difference).saved;
    ScanSavedIncreasing(video[..frameNumber], detect, difference);
    FrameNamesDistinct(writes, saved);
    FolderKeepsEveryWrite(initial, writes);
  }
}
