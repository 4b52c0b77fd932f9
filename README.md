# Frame extraction and expression-change selection, modelled in Dafny

The program reads two videos through a computer-vision library. From the
first it writes every frame to an output folder as `frame_NNNNN.png`. On the
second it runs a face detector on every frame. For each detected face it
takes a mouth region: the lower third of the face, middle half of its width,
clamped to the frame. It then compares the mean grey-level difference of
those regions between the current frame and the last frame that had faces.
It writes a frame, with its faces outlined, when some region differs by more
than 5.0.

This project models the program's own logic and proves properties of it:

- `geometry.dfy` (module `Geometry`) holds the integer rectangle arithmetic of
  the mouth region. It uses the source language's truncating division and the
  clamping against the frame.
- `file_names.dfy` (module `FileNames`) holds the `frame_{n:D5}.png` naming,
  a parser that reads the index back, and the proofs that naming is a
  bijection between indices and well-formed names.
- `video.dfy` (module `Video`) holds both frame loops and the change test. It
  also holds the output folder as the result of the sequence of image writes.
  The selecting loop is proved against `Scan`, a specification that folds one
  `Step` per frame. The lemmas about `Scan` state the selection rules.
- `wrappers.dfy` (module `Wrappers`) holds the `Option` type used by the
  parser.

Library calls become inputs. A video is the sequence of frames its capture
yields; reading past the end yields an empty frame. `detect(f)` is the
detector's list of faces in the grey image of `f`. `difference(p, c, rp, rc)`
is the mean absolute difference between region `rp` of the grey image of `p`
and region `rc` of the grey image of `c`. `outline(f, r)` is `f` with
rectangle `r` drawn on it. `isOpen` says whether the capture could be opened.
A grey image has its frame's size and depends on nothing else, so the model
stores the frame where the program stores its grey copy.

## Model

| member | source | states |
|---|---|---|
| `Geometry.TruncDiv` | Program.cs:188-191 | integer division truncates toward zero: the remainder has the sign of the dividend and is smaller than the divisor; for a non-negative dividend it equals Dafny's division |
| `Geometry.MouthRegion` | Program.cs:188-199 | the region starts at X = max(0, face.X + face.Width/4) and Y = max(0, face.Y + 2*face.Height/3), so X >= 0 and Y >= 0; Width <= face.Width/2 and X + Width <= frame width; Height <= face.Height/3 and Y + Height <= frame height; the full half-width (third-height) is kept when it fits, otherwise the region ends exactly at the right (bottom) edge; for a face of non-negative size the width (height) is non-negative exactly when the region starts at or left of the frame's right edge (at or above its bottom edge), so a region starting beyond that edge gets a negative size |
| `Geometry.MouthRegions` | Program.cs:181-204 | exactly one region per face, in the order of the faces, each the mouth region of its face |
| `Geometry.MouthRegionOfFaceInFrame` | Program.cs:188-199 | for a face with non-negative coordinates and size lying inside the frame, clamping changes nothing: the region is exactly (X + W/4, Y + 2H/3, W/2, H/3), has non-negative size and lies inside the face |
| `FileNames.FrameFileName` | Program.cs:67 | the name is "frame_", at least five decimal digits, then ".png" |
| `FileNames.ParseFrameFileNameRoundTrip` | Program.cs:67 | the index is read back from the name of its file |
| `FileNames.FrameFileNameInjective` | Program.cs:126 | distinct indices give distinct file names |
| `FileNames.FrameFileNameOfParsed` | Program.cs:67 | every name the parser accepts is the name of the index it returns, so names and indices correspond one to one |
| `Video.ReadFrame` | Program.cs:99-103 | reading frame i yields frame i of the video, and an empty frame past its end |
| `Video.FrameCount` | Program.cs:59-65 | a loop processes the frames before the first empty frame: all of them are non-empty, and the next one is empty or past the end |
| `Video.FolderNames` | Program.cs:36-44 | the output folder, which keeps the files it already held, ends with exactly its earlier names plus the names written to, and a file not written to keeps its earlier image |
| `Video.FolderKeepsEveryWrite` | Program.cs:127 | when no two writes share a name, every write's image is in the folder under its name, whatever the folder held before |
| `Video.FolderSize` | Program.cs:68 | when no two writes share a name and none was in the folder before, the folder gains exactly one file per write |
| `Video.FrameNamesDistinct` | Program.cs:126-127 | writes named after pairwise distinct frame indices have pairwise distinct names |
| `Video.ExtractFrames` | Program.cs:48-76 | nothing is written when the capture is not open; otherwise the counter ends at the number of frames read and frame k, for every k below it, is written under the name of index k, with no name used twice |
| `Video.ExtractedFolder` | Program.cs:58-72 | after the extracting loop, whatever the folder held before, frame k is in it under the name of index k for every k below the final counter |
| `Video.DetectExpressionChange` | Program.cs:147-179 | false when there are no faces or the two frame sizes differ; otherwise true exactly when, for some face, the difference between its mouth regions in the two frames exceeds 5.0 |
| `Video.OutlineFaces` | Program.cs:114-117 | the frame written has every face rectangle drawn on it, in the order of the faces |
| `Video.ScanCountsFrames` | Program.cs:139-140 | the frame counter increases by one per frame read |
| `Video.ScanSavedIncreasing` | Program.cs:120-130 | frame 0 is never saved, every saved index is that of a frame read, and saved indices strictly increase |
| `Video.ScanSaved` | Program.cs:112-133 | frame k is saved exactly when k > 0, at least one face is detected in it, and the change test between the stored frame and frame k is true |
| `Video.ScanPrevious` | Program.cs:95-135 | the stored frame is the last frame with at least one face, or the initial empty frame when no frame had a face; frames without faces leave it unchanged |
| `Video.SelectedFolder` | Program.cs:94-141 | after the selecting loop, whatever the folder held before, every frame `Scan` saves is in it under its own name, with its faces outlined |
| `Video.FirstFaceFrameNotSaved` | Program.cs:95-152 | the first frame with a detected face is never saved, because it is compared with the initial empty frame, whose size differs |
| `Video.SelectFrame` | Program.cs:105-137 | one pass over a frame that was read keeps the loop state equal to `Scan` over one more frame; it either writes nothing or writes this frame, with its faces outlined, under its own name and records its index, so every saved frame stays written under its name |
| `Video.SelectExpressionFrames` | Program.cs:78-145 | nothing is written when the capture is not open; otherwise the counter ends at the number of frames read, the saved indices are those of `Scan` over the frames read, and each saved frame is written, with its faces outlined, under its own name, with no name used twice |

## Left out

- The library calls are not modelled: capture, read, grey conversion, cascade detection, drawing, `Absdiff` and `Mean`. They are foreign code. Frames, detections, differences and drawing enter as inputs. `ImWrite` is modelled only by its effect on the folder: the writes are returned as an ordered list of (name, image) pairs, and `Folder` applies them.
- `CompararDiferenciaIntensidad` (Program.cs:206-220) is not modelled. It averages pixels in floating point. Its value is the input `difference`, a real, compared with the threshold 5.0 by strict `>` as in the source.
- The detector's parameters (scale 1.1, 3 neighbours, Canny pruning) are not modelled; they only shape the foreign detector's output.
- Exceptions raised by the library are not modelled. For example, taking a region of interest with a negative size or one outside the frame throws. The model only proves when a mouth region can have a negative size.
- Integers are unbounded. The 32-bit overflow of `2 * cara.Height` or `cara.X + cara.Width / 4` for huge rectangles is not modelled. Nor is the frame counter passing 2^31, where the "D5" format would print a minus sign.
- `Main`, the creation of the output folder and the building of paths from the application directory are not modelled as I/O (Program.cs:11-45, 81-83). File names are modelled relative to the output folder. The folder's earlier contents, which `CreateOutputFolder` keeps when the folder exists, are the `initial` argument of `Folder`.
- `Folder` takes every image write to succeed and to replace any earlier file of that name. `Cv2.ImWrite` returns whether it wrote the file, and the source ignores that result (Program.cs:68, 127), so a failed write leaves no file and the loop goes on. `Video.ExtractedFolder` and `Video.SelectedFolder` therefore hold only when every write succeeds.
- Console output is not modelled. It is logging only.
- `Video.DetectExpressionChange`: stopping at the first region over the threshold is not visible in its contract. `difference` is a pure input here, so stopping early changes only how many comparisons are made, not the result.
