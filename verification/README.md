# Face gallery and matcher of Facial-Recognition-in-JAVA

This project models `FaceDatabase`, the piece of the face-recognition
desktop application that holds the gallery of known faces and matches a
detected face against it. It proves properties of that model in Dafny.

- **Gallery.** A map from label to reference image. The constructor fills
  it from the faces folder: every listed file whose name ends in `.png` is
  loaded under the text before the first `_` of its name, and later files
  overwrite earlier ones with the same label. `saveFace` writes the image
  to `folder/<name>_<millis>.png` and binds `name` to it in memory,
  replacing any earlier image for that name.
- **Matcher.** `recognize` walks the gallery in its iteration order. It
  keeps the entry with the lowest comparison value that is strictly below
  the threshold, and returns its label or `"Unknown"`. The threshold is
  the double literal `0.6`, whose exact value
  0.59999999999999997779553950749686919152736663818359375 the model uses.
  The comparison is a histogram correlation, where a higher value means
  more similar, yet the code minimises it. The model keeps that behaviour
  as written. Ties go to the entry met first, because the comparison with
  `minDist` is strict. A face saved under the name `"Unknown"` cannot be
  told apart from a failed match.
- **No self-match.** A face correlated with itself scores 1. OpenCV also
  returns 1 when a histogram has no variance. A score of 1 is not below the
  threshold, so a face just saved is never recognised under its own name
  (`FaceDatabase.SavedFaceNotRecognized`).

Files:

- `wrappers.dfy` defines `Option`.
- `java_string.dfy` models the Java library behaviour the code relies on:
  - `String.endsWith`, `indexOf` and `split` (with Java's removal of
    trailing empty strings);
  - `File.getName`;
  - `Long.toString` of the clock value.
- `matcher.dfy` defines `recognize` as a fold over a sequence of entries.
- `face_database.dfy` defines the database value, the constructor,
  `saveFace` and `loadKnownFaces`.

Abstractions:

- Images are values of an arbitrary type.
- `compareFaces` is a parameter `score: (Img, Img) -> real`.
- Reading an image file is a parameter `imread`, from file name to image.
- The `HashMap` iteration order is a sequence of `(label, image)` entries.
  `Matcher.IsIterationOf` ties that sequence to the map: every key
  appears exactly once, with its image.
- The directory listing is `Option<seq<string>>`. `None` stands for the
  null that `File.listFiles` returns when the folder cannot be read.
- The clock is a natural-number parameter `millis`.

Behaviour of the code that the model keeps:

- A file that fails to decode is still stored, as whatever `imread`
  returns (FaceDatabase.java:92).
- `saveFace` accepts an empty name. The check for an empty name is in its
  caller (FaceDetector.java:102).
- The result of `imwrite` is ignored, and the in-memory map is updated
  either way (FaceDatabase.java:21-22).
- Ties at the minimum are broken by the map's iteration order
  (FaceDatabase.java:29-31).

## Model

| member | source | states |
|---|---|---|
| Matcher.Step | FaceDetection/src/facedetection/FaceDatabase.java:30-34 | one loop iteration: entry i replaces the kept one only when its value is below both minDist and 0.6; it has no contract of its own, and ScanPrefix states what a run of steps keeps |
| Matcher.IsIterationOf | FaceDetection/src/facedetection/FaceDatabase.java:29 | the order `entrySet` walks the map in: every key exactly once, paired with its image; RecognizeGallery and OrderIrrelevantWhenMinimumUnique state what recognize promises over every such order |
| Matcher.ScanPrefix | FaceDetection/src/facedetection/FaceDatabase.java:26-35 | after the first n entries the loop either has selected nothing (minimum still Double.MAX_VALUE, no entry so far below 0.6) or holds the first entry whose value is below 0.6 and no greater than any value seen, with minDist equal to that value |
| Matcher.Select | FaceDetection/src/facedetection/FaceDatabase.java:29-35 | nothing is selected exactly when every entry scores at or above 0.6; otherwise the selected index is below 0.6, lowest of all, and strictly lower than every earlier entry |
| Matcher.Recognize | FaceDetection/src/facedetection/FaceDatabase.java:25-37 | "Unknown" when no entry scores below 0.6; otherwise the label of the first entry holding the lowest value below 0.6 |
| Matcher.RecognizeEmpty | FaceDetection/src/facedetection/FaceDatabase.java:26-36 | an empty gallery always yields "Unknown" |
| Matcher.RecognizeGallery | FaceDetection/src/facedetection/FaceDatabase.java:25-37 | for any iteration order of a gallery: "Unknown" when every reference scores at least 0.6; otherwise a key of the gallery scoring below 0.6 and no higher than any other reference |
| Matcher.FirstBestUnique | FaceDetection/src/facedetection/FaceDatabase.java:31-33 | at most one entry can be the first lowest accepted one, so the selection rule is deterministic for a fixed order |
| Matcher.TieGoesToFirst | FaceDetection/src/facedetection/FaceDatabase.java:31 | of two entries with equal values, the later one is never selected, because the comparison with minDist is strict |
| Matcher.LowerValueWins | FaceDetection/src/facedetection/FaceDatabase.java:31-33 | of two accepted references the one with the lower value wins in either order, i.e. the rule minimises the correlation |
| Matcher.RejectedNeverSelected | FaceDetection/src/facedetection/FaceDatabase.java:31 | an entry scoring 0.6 or more is never selected, so a perfect correlation of 1 is never a match |
| Matcher.OrderIrrelevantWhenMinimumUnique | FaceDetection/src/facedetection/FaceDatabase.java:29 | when no two keys tie at an accepted value, every iteration order of the map gives the same answer |
| JavaString.EndsWith | FaceDetection/src/facedetection/FaceDatabase.java:90 | String.endsWith; its contract is EndsWithAppend |
| JavaString.EndsWithAppend | FaceDetection/src/facedetection/FaceDatabase.java:90 | a name ends with the suffix exactly when there is some text that, followed by the suffix, gives the name |
| JavaString.AfterLast | FaceDetection/src/facedetection/FaceDatabase.java:90-91 | File.getName: the result is a tail of the path that holds no separator and, when shorter than the path, follows a separator; AfterLastAppend gives the name of `folder/name` as `name` when `name` holds no separator |
| JavaString.AfterLastAppend | FaceDetection/src/facedetection/FaceDatabase.java:90-91 | File.getName of a path `a/n`, where `n` holds no separator, is `n` |
| JavaString.Split | FaceDetection/src/facedetection/FaceDatabase.java:91 | split("_") as Java does it: a name without underscore gives the one-element array holding the name; a name not ending in an underscore gives all its pieces; element 0, when present, is the text before the first underscore |
| JavaString.PiecesHead | FaceDetection/src/facedetection/FaceDatabase.java:91 | the first piece of the split is the text before the first underscore, or the whole name |
| JavaString.JoinPieces | FaceDetection/src/facedetection/FaceDatabase.java:91 | the pieces, glued back with the delimiter between them, give the original name, so the split loses nothing |
| JavaString.LongToString | FaceDetection/src/facedetection/FaceDatabase.java:20 | Long.toString of the clock value: a non-empty string of decimal digits without a leading zero (except for 0 itself); LongToStringRoundTrip and LongToStringInjective tie it to the value |
| JavaString.LongToStringRoundTrip | FaceDetection/src/facedetection/FaceDatabase.java:20 | the decimal rendering of the clock value parses back to that value |
| FaceDatabase.IsPng | FaceDetection/src/facedetection/FaceDatabase.java:90 | the filter of the load loop; NonPngIgnored states that a file failing it has no effect wherever it is listed |
| FaceDatabase.Label | FaceDetection/src/facedetection/FaceDatabase.java:91 | for a name ending in ".png", element 0 of split("_") always exists and is the text before the first underscore, or the whole name when there is none |
| FaceDatabase.LoadStep | FaceDetection/src/facedetection/FaceDatabase.java:90-92 | one iteration of the load loop: a ".png" file puts its label, bound to the image read from it, and any other file changes nothing; its contract is LoadStepKey and LoadStepOther |
| FaceDatabase.LoadStepKey | FaceDetection/src/facedetection/FaceDatabase.java:90-92 | after one iteration a label is present exactly when it was before or the file is a ".png" carrying it |
| FaceDatabase.LoadStepOther | FaceDetection/src/facedetection/FaceDatabase.java:90-92 | one iteration leaves a present label's image alone unless the file is a ".png" carrying that label |
| FaceDatabase.LoadFiles | FaceDetection/src/facedetection/FaceDatabase.java:89-94 | the load loop over the listing in its order; its contract is carried by LoadFilesKey, LoadFilesLast, LoadFilesUntouched and NonPngIgnored |
| FaceDatabase.LoadFilesKey | FaceDetection/src/facedetection/FaceDatabase.java:88-94 | after the load loop a label is present exactly when it was before or some listed ".png" file carries it |
| FaceDatabase.LoadFilesLast | FaceDetection/src/facedetection/FaceDatabase.java:89-93 | a label is bound to the image read from the last ".png" file carrying it: later files overwrite earlier ones |
| FaceDatabase.LoadFilesUntouched | FaceDetection/src/facedetection/FaceDatabase.java:89-94 | a label that no listed ".png" file carries keeps its earlier image |
| FaceDatabase.NonPngIgnored | FaceDetection/src/facedetection/FaceDatabase.java:90 | removing a file whose name does not end in ".png" from anywhere in the listing does not change the loaded map |
| FaceDatabase.LoadKnownFaces | FaceDetection/src/facedetection/FaceDatabase.java:84-96 | a null listing leaves the map unchanged; otherwise the keys are the old ones plus the labels of the ".png" files, each bound to its last file's image |
| FaceDatabase.Open | FaceDetection/src/facedetection/FaceDatabase.java:13-17 | the constructor keeps the folder path, starts empty, and ends with exactly the labels of the listed ".png" files (none for a null listing), each bound to the image read from the last file carrying it |
| FaceDatabase.FileName | FaceDetection/src/facedetection/FaceDatabase.java:20 | the file name saveFace writes, `<name>_<millis>.png`, always ends in ".png", so the loader picks it up; FileLabelRoundTrip and FileNamesDiffer state what it encodes |
| FaceDatabase.FilePath | FaceDetection/src/facedetection/FaceDatabase.java:20 | the path saveFace writes, the folder, a separator and the file name; SavedFileName states that its last component is the file name |
| FaceDatabase.SaveFace | FaceDetection/src/facedetection/FaceDatabase.java:19-23 | after saving, the name maps to the saved face, every other key and image is unchanged, and the key count grows by one exactly when the name was new |
| FaceDatabase.FileLabelRoundTrip | FaceDetection/src/facedetection/FaceDatabase.java:20 | the label recovered at load time from a saved file name is the part of the name before its first underscore, hence the name itself when it has none |
| FaceDatabase.FileNamesDiffer | FaceDetection/src/facedetection/FaceDatabase.java:20 | two saves under one name produce the same file name exactly when the clock values are equal |
| FaceDatabase.SavedFileName | FaceDetection/src/facedetection/FaceDatabase.java:20 | the path written lies directly in the faces folder: its last component is `<name>_<millis>.png` when the name holds no separator |
| FaceDatabase.SaveThenReload | FaceDetection/src/facedetection/FaceDatabase.java:19-23 | for a name with no underscore and no separator, reloading any listing that holds the saved file, with no later file carrying the same label, binds the name to the image read back from that file, not necessarily the image saveFace keeps in memory |
| FaceDatabase.SavedFaceNotRecognized | FaceDetection/src/facedetection/FaceDatabase.java:19-36 | as the correlation comparison behaves (a face scores at least the threshold against itself), right after saving a face, recognising that face never returns its name, in any iteration order |
| FaceDatabase.SaveThenRecognize | FaceDetection/src/facedetection/FaceDatabase.java:19-36 | only for a comparison that behaves like a distance: right after saving a face, recognising it returns its name in any iteration order, if it scores below the threshold against itself and strictly lower than against every other stored image |

## Left out

- The body of `compareFaces` is left out. Its grayscale conversion, resize, histogram, normalisation and `compareHist` are OpenCV calls with floating-point numerics, so it is the parameter `score`.
- Double arithmetic is left out. Comparison values are exact reals, so rounding and NaN are not modelled. The threshold is the exact value of the double literal.
- File I/O is left out: `mkdirs`, `imwrite`, `imread` and `listFiles` are native or filesystem operations. The listing is an input, reading is the parameter `imread`, and the result of writing is ignored, as the code ignores it.
- `System.currentTimeMillis` is left out. The clock is the parameter `millis`.
- `java.io.File` path normalisation is left out: collapsing repeated separators and Windows separators are not modelled. The separator is `/`.
- `imread` gets the file name rather than the absolute path. Resolving the path is file-system work.
- `score` is total, so exceptions thrown by the OpenCV calls inside `compareFaces` are not modelled. This includes an empty stored image from a failed decode: `Imgproc.resize` rejects it (FaceDatabase.java:59), so every later `recognize` throws, where `Matcher.Recognize` returns a result.
- Dafny strings are sequences of Unicode scalar values, not Java's UTF-16 code units. No result here depends on the difference, because every character the code searches for is ASCII.
- `imread` ignores the `IMREAD_GRAYSCALE` flag. It is an arbitrary function, so a reloaded image need not equal the colour face that `saveFace` keeps in memory.
- Concurrency is left out. `saveFace` runs on the Swing event thread and `recognize` runs in the camera loop on the main thread (FaceDetector.java:45-46 and 113, 58-61 and 85). A `put` during the `entrySet` loop can throw `ConcurrentModificationException`, or the loop may miss the update. The model treats every call as atomic.
- `FaceDetector.java` is not part of this model. It holds the Swing window, the camera loop, the Haar cascade detection and the image copy for display.
