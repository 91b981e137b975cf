/**
 * FaceDatabase.recognize: a linear scan over the gallery that keeps the entry
 * with the lowest comparison value strictly below the acceptance threshold.
 *
 * The gallery is seen through its iteration order, a sequence of
 * (label, image) entries; the comparison (compareFaces) is an arbitrary
 * function `score` from a face and a reference image to a real number.
 */
module Matcher {
  import opened Wrappers

  /**
   * The acceptance threshold: the double literal 0.6, whose exact value is
   * slightly below 0.6; only values strictly below it are accepted.
   */
  const Threshold: real := 0.59999999999999997779553950749686919152736663818359375

  /** The label returned when no entry is accepted. */
  const Unknown: string := "Unknown"

  /** Double.MAX_VALUE, (2^53 - 1) * 2^971, the initial minimum. */
  const MaxDouble: real := 179769313486231570814527423731704356798070567525844996598917476803157260780028538760589558632766878171540458953514382464234321326889464182768467546703537516986049910576551282076245490090389328944075868508455133942304583236903222948165808559332123348274797826204144723168738177180919299881250404026184124858368.0

  /** The comparison value of `face` against the reference image of entry `i`. */
  function Dist<Img>(face: Img, entries: seq<(string, Img)>, score: (Img, Img) -> real, i: nat): real
    requires i < |entries|
  {
    score(face, entries[i].1)
  }

  /** The loop state: the smallest accepted value so far and the index of its entry. */
  datatype Scan = Scan(minDist: real, best: Option<nat>)

  /** One iteration: take entry `i` when it is below both the minimum so far and the threshold. */
  function Step<Img>(face: Img, entries: seq<(string, Img)>, score: (Img, Img) -> real, s: Scan, i: nat): Scan
    requires i < |entries|
  {
    var dist := Dist(face, entries, score, i);
    if dist < s.minDist && dist < Threshold then Scan(dist, Some(i)) else s
  }

  /** Entry `i` is accepted, no entry is lower, and every earlier entry is strictly higher. */
  ghost predicate IsFirstBest<Img>(face: Img, entries: seq<(string, Img)>, score: (Img, Img) -> real, i: nat)
  {
    && i < |entries|
    && Dist(face, entries, score, i) < Threshold
    && (forall j :: 0 <= j < |entries| ==> Dist(face, entries, score, i) <= Dist(face, entries, score, j))
    && (forall j :: 0 <= j < i ==> Dist(face, entries, score, i) < Dist(face, entries, score, j))
  }

  /** No entry is below the threshold. */
  ghost predicate NoneAccepted<Img>(face: Img, entries: seq<(string, Img)>, score: (Img, Img) -> real)
  {
    forall j :: 0 <= j < |entries| ==> Threshold <= Dist(face, entries, score, j)
  }

  /** The loop state after the first `n` entries. */
  function ScanPrefix<Img>(face: Img, entries: seq<(string, Img)>, score: (Img, Img) -> real, n: nat): (s: Scan)
    requires n <= |entries|
    ensures s.best.None? ==>
      s.minDist == MaxDouble && NoneAccepted(face, entries[..n], score)
    ensures s.best.Some? ==>
      IsFirstBest(face, entries[..n], score, s.best.value)
      && s.minDist == Dist(face, entries, score, s.best.value)
  {
    if n == 0 then Scan(MaxDouble, None)
    else
      var prev := ScanPrefix(face, entries, score, n - 1);
      assert forall j :: 0 <= j < n - 1 ==>
        Dist(face, entries[..n - 1], score, j) == Dist(face, entries, score, j);
      assert forall j :: 0 <= j < n ==>
        Dist(face, entries[..n], score, j) == Dist(face, entries, score, j);
      Step(face, entries, score, prev, n - 1)
  }

  /** The index of the entry the scan selects, if any. */
  function Select<Img>(face: Img, entries: seq<(string, Img)>, score: (Img, Img) -> real): (r: Option<nat>)
    ensures r.None? <==> NoneAccepted(face, entries, score)
    ensures r.Some? ==> IsFirstBest(face, entries, score, r.value)
  {
    var s := ScanPrefix(face, entries, score, |entries|);
    assert entries[..|entries|] == entries;
    s.best
  }

  /** FaceDatabase.recognize over one iteration order of the gallery. */
  function Recognize<Img>(face: Img, entries: seq<(string, Img)>, score: (Img, Img) -> real): (who: string)
    ensures NoneAccepted(face, entries, score) ==> who == Unknown
    ensures !NoneAccepted(face, entries, score) ==>
      exists i :: 0 <= i < |entries| && entries[i].0 == who && IsFirstBest(face, entries, score, i)
  {
    match Select(face, entries, score)
    case None => Unknown
    case Some(i) => entries[i].0
  }

  /** At most one entry is the first lowest accepted one. */
  lemma FirstBestUnique<Img>(face: Img, entries: seq<(string, Img)>, score: (Img, Img) -> real, i: nat, j: nat)
    requires IsFirstBest(face, entries, score, i)
    requires IsFirstBest(face, entries, score, j)
    ensures i == j
  {
  }

  /** An empty gallery recognises nobody. */
  lemma RecognizeEmpty<Img>(face: Img, score: (Img, Img) -> real)
    ensures Recognize(face, [], score) == Unknown
  {
  }

  /** `entries` lists every key of `gallery` exactly once with its image. */
  ghost predicate IsIterationOf<Img>(entries: seq<(string, Img)>, gallery: map<string, Img>)
  {
    && (forall i, j :: 0 <= i < j < |entries| ==> entries[i].0 != entries[j].0)
    && (forall i :: 0 <= i < |entries| ==> entries[i].0 in gallery && gallery[entries[i].0] == entries[i].1)
    && (forall k :: k in gallery ==> exists i :: 0 <= i < |entries| && entries[i].0 == k)
  }

  /**
   * Over any iteration order of a gallery, the result is "Unknown" when no
   * reference scores below the threshold; otherwise it is a key of the
   * gallery whose score is below the threshold and no greater than any
   * other reference's score (which is "Unknown" too when that key is).
   */
  lemma RecognizeGallery<Img>(face: Img, gallery: map<string, Img>, entries: seq<(string, Img)>, score: (Img, Img) -> real)
    requires IsIterationOf(entries, gallery)
    ensures var who := Recognize(face, entries, score);
      && ((forall k :: k in gallery ==> Threshold <= score(face, gallery[k])) ==> who == Unknown)
      && ((exists k :: k in gallery && score(face, gallery[k]) < Threshold) ==>
            && who in gallery
            && score(face, gallery[who]) < Threshold
            && (forall k :: k in gallery ==> score(face, gallery[who]) <= score(face, gallery[k])))
  {
    var who := Recognize(face, entries, score);
    if exists k :: k in gallery && score(face, gallery[k]) < Threshold {
      var k :| k in gallery && score(face, gallery[k]) < Threshold;
      var j :| 0 <= j < |entries| && entries[j].0 == k;
      assert Dist(face, entries, score, j) < Threshold;
      var i :| 0 <= i < |entries| && entries[i].0 == who && IsFirstBest(face, entries, score, i);
      forall k' | k' in gallery
        ensures score(face, gallery[who]) <= score(face, gallery[k'])
      {
        var j' :| 0 <= j' < |entries| && entries[j'].0 == k';
        assert Dist(face, entries, score, i) <= Dist(face, entries, score, j');
      }
    } else {
      forall j | 0 <= j < |entries|
        ensures Threshold <= Dist(face, entries, score, j)
      {
        assert entries[j].0 in gallery;
      }
    }
  }

  /**
   * Ties at the minimum go to the entry met first: a later entry whose value
   * equals an earlier one's is never selected.
   */
  lemma TieGoesToFirst<Img>(face: Img, entries: seq<(string, Img)>, score: (Img, Img) -> real, i: nat, j: nat)
    requires i < j < |entries|
    requires Dist(face, entries, score, i) == Dist(face, entries, score, j)
    ensures Select(face, entries, score) != Some(j)
  {
  }

  /**
   * The rule minimises: of two accepted references, the one with the lower
   * value is returned, even though a higher histogram correlation means a
   * closer match.
   */
  lemma LowerValueWins<Img>(face: Img, a: string, x: Img, b: string, y: Img, score: (Img, Img) -> real)
    requires a != b
    requires score(face, x) < score(face, y) < Threshold
    ensures Recognize(face, [(a, x), (b, y)], score) == a
    ensures Recognize(face, [(b, y), (a, x)], score) == a
  {
    var e1 := [(a, x), (b, y)];
    var e2 := [(b, y), (a, x)];
    assert Dist(face, e1, score, 0) < Threshold;
    assert Dist(face, e2, score, 1) < Threshold;
  }

  /**
   * A reference that scores at or above the threshold is never returned,
   * so an identical image (correlation 1) is never recognised.
   */
  lemma RejectedNeverSelected<Img>(face: Img, entries: seq<(string, Img)>, score: (Img, Img) -> real, i: nat)
    requires i < |entries|
    requires Threshold <= Dist(face, entries, score, i)
    ensures Select(face, entries, score) != Some(i)
  {
  }

  /**
   * When a single key holds the lowest accepted value, the answer does not
   * depend on the iteration order.
   */
  lemma OrderIrrelevantWhenMinimumUnique<Img>(
    face: Img, gallery: map<string, Img>, e1: seq<(string, Img)>, e2: seq<(string, Img)>, score: (Img, Img) -> real)
    requires IsIterationOf(e1, gallery) && IsIterationOf(e2, gallery)
    requires forall k, k' :: k in gallery && k' in gallery && k != k' && score(face, gallery[k]) < Threshold
               ==> score(face, gallery[k]) != score(face, gallery[k'])
    ensures Recognize(face, e1, score) == Recognize(face, e2, score)
  {
    RecognizeGallery(face, gallery, e1, score);
    RecognizeGallery(face, gallery, e2, score);
    if !(exists k :: k in gallery && score(face, gallery[k]) < Threshold) {
      assert forall k :: k in gallery ==> Threshold <= score(face, gallery[k]);
    }
  }
}
