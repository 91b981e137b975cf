/**
 * The face gallery of FaceDatabase: a map from label to reference image,
 * filled from a directory listing when the database is opened and updated
 * by saveFace, together with the file names that link the two.
 *
 * Images are values of an arbitrary type `Img`. Reading an image file
 * (Imgcodecs.imread) is a function `imread` from the file name to an image;
 * the directory listing is an optional sequence of file names (None for the
 * null that File.listFiles returns when the folder cannot be read); the
 * clock value of saveFace is a parameter `millis`.
 */
module FaceDatabase {
  import opened Wrappers
  import opened JavaString
  import Matcher

  /** File.separator on the platforms the application targets. */
  const Separator: char := '/'

  /** The character that ends the label inside a saved file name. */
  const Delimiter: char := '_'

  /** The extension of saved faces; only files ending in it are loaded. */
  const PngSuffix: string := ".png"

  datatype Database<Img> = Database(facesFolder: string, knownFaces: map<string, Img>)

  /** The outcome of saveFace: the updated database and the path written to. */
  datatype Saved<Img> = Saved(db: Database<Img>, path: string)

  predicate IsPng(fileName: string) {
    EndsWith(fileName, PngSuffix)
  }

  /**
   * The label of a listed file, `fileName.split("_")[0]`. For a name ending
   * in ".png" the split never comes back empty, so the index is always valid,
   * and element 0 is the text before the first underscore (all of the name,
   * extension included, when it has none).
   */
  function Label(fileName: string): (prefix: string)
    requires IsPng(fileName)
    ensures prefix == PrefixBefore(fileName, Delimiter)
  {
    assert fileName[|fileName| - 1] == PngSuffix[3];
    var parts := Split(fileName, Delimiter);
    parts[0]
  }

  /** File `i` of the listing is loaded and carries label `k`. */
  ghost predicate LoadsAs(files: seq<string>, i: int, k: string) {
    0 <= i < |files| && IsPng(files[i]) && Label(files[i]) == k
  }

  /** File `i` is the last loaded file of the listing that carries label `k`. */
  ghost predicate LastLoadedAs(files: seq<string>, i: int, k: string) {
    LoadsAs(files, i, k) && forall j :: i < j < |files| ==> !LoadsAs(files, j, k)
  }

  /** One iteration of the load loop. */
  function LoadStep<Img>(m: map<string, Img>, fileName: string, imread: string -> Img): map<string, Img> {
    if IsPng(fileName) then m[Label(fileName) := imread(fileName)] else m
  }

  /** The load loop over a listing, starting from `m`. */
  function LoadFiles<Img>(m: map<string, Img>, files: seq<string>, imread: string -> Img): map<string, Img> {
    if |files| == 0 then m
    else LoadStep(LoadFiles(m, files[..|files| - 1], imread), files[|files| - 1], imread)
  }

  /** A file carrying `k` is either among the files before the last one, or it is the last one. */
  lemma LoadsAsLast(prefix: seq<string>, last: string, k: string)
    ensures (exists i :: LoadsAs(prefix + [last], i, k)) <==>
      (exists i :: LoadsAs(prefix, i, k)) || (IsPng(last) && Label(last) == k)
  {
    var files := prefix + [last];
    if exists i :: LoadsAs(prefix, i, k) {
      var i :| LoadsAs(prefix, i, k);
      assert files[i] == prefix[i];
      assert LoadsAs(files, i, k);
    }
    if IsPng(last) && Label(last) == k {
      assert LoadsAs(files, |prefix|, k);
    }
    if exists i :: LoadsAs(files, i, k) {
      var i :| LoadsAs(files, i, k);
      if i < |prefix| {
        assert files[i] == prefix[i];
        assert LoadsAs(prefix, i, k);
      }
    }
  }

  /** One load step adds the label of a ".png" file and nothing else. */
  lemma LoadStepKey<Img>(m: map<string, Img>, fileName: string, imread: string -> Img, k: string)
    ensures k in LoadStep(m, fileName, imread) <==> k in m || (IsPng(fileName) && Label(fileName) == k)
  {
  }

  /** A key is present after loading exactly when it was before or some ".png" file carries it. */
  lemma {:induction false} LoadFilesKey<Img>(m: map<string, Img>, files: seq<string>, imread: string -> Img, k: string)
    ensures k in LoadFiles(m, files, imread) <==> k in m || exists i :: LoadsAs(files, i, k)
  {
    if |files| > 0 {
      var n := |files| - 1;
      var prefix, last := files[..n], files[n];
      assert files == prefix + [last];
      assert LoadFiles(m, files, imread) == LoadStep(LoadFiles(m, prefix, imread), last, imread);
      LoadFilesKey(m, prefix, imread, k);
      LoadStepKey(LoadFiles(m, prefix, imread), last, imread, k);
      LoadsAsLast(prefix, last, k);
    }
  }

  /** A key carried by some ".png" file ends up bound to the image of the last such file. */
  lemma {:induction false} LoadFilesLast<Img>(m: map<string, Img>, files: seq<string>, imread: string -> Img, k: string, i: int)
    requires LastLoadedAs(files, i, k)
    ensures k in LoadFiles(m, files, imread) && LoadFiles(m, files, imread)[k] == imread(files[i])
  {
    var n := |files| - 1;
    var prefix, last := files[..n], files[n];
    var prev := LoadFiles(m, prefix, imread);
    assert LoadFiles(m, files, imread) == LoadStep(prev, last, imread);
    if i < n {
      LastLoadedInPrefix(files, i, k);
      LoadFilesLast(m, prefix, imread, k, i);
      LoadStepOther(prev, last, imread, k);
    }
  }

  /** The last file carrying `k`, when it is not the final file, is also the last one before it. */
  lemma LastLoadedInPrefix(files: seq<string>, i: int, k: string)
    requires LastLoadedAs(files, i, k) && i < |files| - 1
    ensures LastLoadedAs(files[..|files| - 1], i, k)
    ensures var last := files[|files| - 1]; !(IsPng(last) && Label(last) == k)
  {
    var n := |files| - 1;
    var prefix := files[..n];
    assert !LoadsAs(files, n, k);
    assert prefix[i] == files[i];
    forall j | i < j < n
      ensures !LoadsAs(prefix, j, k)
    {
      assert prefix[j] == files[j];
      assert !LoadsAs(files, j, k);
    }
  }

  /** One load step leaves a key alone unless the file is a ".png" carrying it. */
  lemma LoadStepOther<Img>(m: map<string, Img>, fileName: string, imread: string -> Img, k: string)
    requires k in m
    requires !(IsPng(fileName) && Label(fileName) == k)
    ensures k in LoadStep(m, fileName, imread) && LoadStep(m, fileName, imread)[k] == m[k]
  {
  }

  /** A key that no ".png" file carries keeps its value. */
  lemma {:induction false} LoadFilesUntouched<Img>(m: map<string, Img>, files: seq<string>, imread: string -> Img, k: string)
    requires k in m
    requires forall i :: !LoadsAs(files, i, k)
    ensures k in LoadFiles(m, files, imread) && LoadFiles(m, files, imread)[k] == m[k]
  {
    if |files| > 0 {
      var n := |files| - 1;
      var prefix, last := files[..n], files[n];
      assert !LoadsAs(files, n, k);
      forall i
        ensures !LoadsAs(prefix, i, k)
      {
        if 0 <= i < n {
          assert prefix[i] == files[i];
          assert !LoadsAs(files, i, k);
        }
      }
      LoadFilesUntouched(m, prefix, imread, k);
      assert LoadFiles(m, files, imread) == LoadStep(LoadFiles(m, prefix, imread), last, imread);
      LoadStepOther(LoadFiles(m, prefix, imread), last, imread, k);
    }
  }

  /**
   * loadKnownFaces: nothing happens on a null listing; otherwise the load
   * loop runs over the listed file names.
   */
  function LoadKnownFaces<Img>(m: map<string, Img>, listing: Option<seq<string>>, imread: string -> Img): (r: map<string, Img>)
    ensures listing.None? ==> r == m
    ensures listing.Some? ==>
      && (forall k :: k in r <==> k in m || exists i :: LoadsAs(listing.value, i, k))
      && (forall k, i :: LastLoadedAs(listing.value, i, k) ==> r[k] == imread(listing.value[i]))
  {
    match listing
    case None => m
    case Some(files) =>
      var r := LoadFiles(m, files, imread);
      assert forall k :: k in r <==> k in m || exists i :: LoadsAs(files, i, k) by {
        forall k
          ensures k in r <==> k in m || exists i :: LoadsAs(files, i, k)
        {
          LoadFilesKey(m, files, imread, k);
        }
      }
      assert forall k, i :: LastLoadedAs(files, i, k) ==> r[k] == imread(files[i]) by {
        forall k, i | LastLoadedAs(files, i, k)
          ensures r[k] == imread(files[i])
        {
          LoadFilesLast(m, files, imread, k, i);
        }
      }
      r
  }

  /** The constructor: an empty gallery filled from the folder's listing. */
  function Open<Img>(folderPath: string, listing: Option<seq<string>>, imread: string -> Img): (db: Database<Img>)
    ensures db.facesFolder == folderPath
    ensures listing.None? ==> db.knownFaces == map[]
    ensures listing.Some? ==>
      forall k :: k in db.knownFaces <==> exists i :: LoadsAs(listing.value, i, k)
    ensures listing.Some? ==>
      forall k, i :: LastLoadedAs(listing.value, i, k) ==> db.knownFaces[k] == imread(listing.value[i])
  {
    Database(folderPath, LoadKnownFaces(map[], listing, imread))
  }

  /** The file name saveFace writes: label, underscore, clock value, ".png". */
  function FileName(name: string, millis: nat): (fileName: string)
    ensures IsPng(fileName)
  {
    var fileName := name + "_" + LongToString(millis) + PngSuffix;
    assert fileName[|fileName| - |PngSuffix|..] == PngSuffix;
    fileName
  }

  /** The full path saveFace writes, inside the faces folder. */
  function FilePath(folder: string, name: string, millis: nat): string {
    folder + [Separator] + FileName(name, millis)
  }

  /**
   * saveFace: the image is written under a fresh name and bound to `name`
   * in memory, replacing any earlier image for that name; no other key or
   * image changes, and the key count grows by one exactly when the name
   * was new.
   */
  function SaveFace<Img>(db: Database<Img>, face: Img, name: string, millis: nat): (s: Saved<Img>)
    ensures s.db.facesFolder == db.facesFolder
    ensures s.path == FilePath(db.facesFolder, name, millis)
    ensures name in s.db.knownFaces && s.db.knownFaces[name] == face
    ensures forall k :: k != name ==> (k in s.db.knownFaces <==> k in db.knownFaces)
    ensures forall k :: k != name && k in db.knownFaces ==> s.db.knownFaces[k] == db.knownFaces[k]
    ensures |s.db.knownFaces| == if name in db.knownFaces then |db.knownFaces| else |db.knownFaces| + 1
  {
    var known := db.knownFaces[name := face];
    assert known.Keys == db.knownFaces.Keys + {name};
    Saved(Database(db.facesFolder, known), FilePath(db.facesFolder, name, millis))
  }

  /**
   * Loading a saved file recovers the text of the name before its first
   * underscore; for a name without underscore that is the name itself.
   */
  lemma FileLabelRoundTrip(name: string, millis: nat)
    ensures Label(FileName(name, millis)) == PrefixBefore(name, Delimiter)
    ensures Delimiter !in name ==> Label(FileName(name, millis)) == name
  {
    assert FileName(name, millis) == name + [Delimiter] + (LongToString(millis) + PngSuffix);
    PrefixBeforeConcat(name, Delimiter, LongToString(millis) + PngSuffix);
  }

  /** Two saves under one name write the same file name only for the same clock value. */
  lemma FileNamesDiffer(name: string, m1: nat, m2: nat)
    ensures FileName(name, m1) == FileName(name, m2) <==> m1 == m2
  {
    var d1, d2 := LongToString(m1), LongToString(m2);
    if FileName(name, m1) == FileName(name, m2) {
      var f := FileName(name, m1);
      assert |d1| == |d2|;
      assert d1 == f[|name| + 1..|f| - 4];
      assert d2 == f[|name| + 1..|f| - 4];
      LongToStringInjective(m1, m2);
    }
  }

  /** The saved file is listed under its file name when the name has no separator. */
  lemma SavedFileName(folder: string, name: string, millis: nat)
    requires Separator !in name
    ensures AfterLast(FilePath(folder, name, millis), Separator) == FileName(name, millis)
  {
    var f := FileName(name, millis);
    var digits := LongToString(millis);
    assert f == name + "_" + digits + PngSuffix;
    assert forall k :: 0 <= k < |f| ==> f[k] != Separator by {
      forall k | 0 <= k < |f|
        ensures f[k] != Separator
      {
        if k < |name| {
          assert f[k] == name[k];
        } else if k == |name| {
          assert f[k] == '_';
        } else if k < |name| + 1 + |digits| {
          assert f[k] == digits[k - |name| - 1];
        } else {
          assert f[k] == PngSuffix[k - |name| - 1 - |digits|];
        }
      }
    }
    AfterLastAppend(folder, Separator, f);
  }

  /** A listed file that is not ".png" has no effect wherever it appears. */
  lemma {:induction false} NonPngIgnored<Img>(m: map<string, Img>, a: seq<string>, f: string, b: seq<string>, imread: string -> Img)
    requires !IsPng(f)
    ensures LoadFiles(m, a + [f] + b, imread) == LoadFiles(m, a + b, imread)
    decreases |b|
  {
    if |b| == 0 {
      assert (a + [f] + b)[..|a|] == a;
      assert a + b == a;
    } else {
      var b' := b[..|b| - 1];
      var last := b[|b| - 1];
      NonPngIgnored(m, a, f, b', imread);
      assert (a + [f] + b)[..|a + [f] + b| - 1] == a + [f] + b';
      assert (a + b)[..|a + b| - 1] == a + b';
    }
  }

  /**
   * Save then reload: when the saved name has neither underscore nor
   * separator, and no file listed after the saved one carries the same
   * label, reloading binds that name to whatever reading the saved file
   * gives (a grayscale decode, which need not equal the colour face kept in
   * memory). The listing order is arbitrary: files before the saved one may
   * carry the name too, and are overwritten.
   */
  lemma SaveThenReload<Img>(db: Database<Img>, face: Img, name: string, millis: nat,
                            m: map<string, Img>, before: seq<string>, after: seq<string>, imread: string -> Img)
    requires Delimiter !in name && Separator !in name
    requires forall j :: 0 <= j < |after| ==> !LoadsAs(after, j, name)
    ensures var s := SaveFace(db, face, name, millis);
      var listing := before + [AfterLast(s.path, Separator)] + after;
      name in LoadFiles(m, listing, imread) && LoadFiles(m, listing, imread)[name] == imread(FileName(name, millis))
  {
    SavedFileName(db.facesFolder, name, millis);
    FileLabelRoundTrip(name, millis);
    var listing := before + [FileName(name, millis)] + after;
    var n := |before|;
    assert LoadsAs(listing, n, name);
    forall j | n < j < |listing|
      ensures !LoadsAs(listing, j, name)
    {
      assert listing[j] == after[j - n - 1];
      assert !LoadsAs(after, j - n - 1, name);
    }
    LoadFilesLast(m, listing, imread, name, n);
  }

  /**
   * Save then recognise, as the comparison really behaves: compareFaces is
   * a histogram correlation, so a face compared with itself scores 1 (also
   * when its histogram has no variance), which is not below the threshold.
   * Right after saving `face` under `name`, recognising the same face never
   * returns `name`, in any iteration order.
   */
  lemma SavedFaceNotRecognized<Img>(db: Database<Img>, face: Img, name: string, millis: nat,
                                    entries: seq<(string, Img)>, score: (Img, Img) -> real)
    requires Matcher.IsIterationOf(entries, SaveFace(db, face, name, millis).db.knownFaces)
    requires Matcher.Threshold <= score(face, face)
    requires name != Matcher.Unknown
    ensures Matcher.Recognize(face, entries, score) != name
  {
    Matcher.RecognizeGallery(face, SaveFace(db, face, name, millis).db.knownFaces, entries, score);
  }

  /**
   * Save then recognise, for a comparison that behaves like a distance
   * (self-comparison below the threshold and strictly lowest): recognising
   * the face just saved returns its name in any iteration order.
   */
  lemma SaveThenRecognize<Img>(db: Database<Img>, face: Img, name: string, millis: nat,
                               entries: seq<(string, Img)>, score: (Img, Img) -> real)
    requires Matcher.IsIterationOf(entries, SaveFace(db, face, name, millis).db.knownFaces)
    requires score(face, face) < Matcher.Threshold
    requires forall k :: k in db.knownFaces && k != name ==> score(face, face) < score(face, db.knownFaces[k])
    ensures Matcher.Recognize(face, entries, score) == name
  {
    var known := SaveFace(db, face, name, millis).db.knownFaces;
    Matcher.RecognizeGallery(face, known, entries, score);
    var who := Matcher.Recognize(face, entries, score);
    assert score(face, known[name]) < Matcher.Threshold;
    assert score(face, known[who]) <= score(face, known[name]);
  }
}
