/**
 * Picking the generated image out of the rendered page: drop small,
 * source-less and spinner images, then take the largest by natural pixel
 * area, the first one on ties.
 */
module Images {
  import opened Wrappers
  import Text

  /**
   * An `img` element of the page, in document order: its resolved `src`
   * (empty when it has none), its rendered width, and its intrinsic size.
   */
  datatype Image = Image(src: string, width: nat, naturalWidth: nat, naturalHeight: nat)

  /** Images this wide or narrower are taken for decoration. */
  const MinWidth: nat := 200

  /** The marker of a loading indicator in an image URL (case-sensitive). */
  const SpinnerMarker: string := "spinner"

  /** The filter: a source, a rendered width above `MinWidth`, and no spinner. */
  predicate IsCandidate(img: Image) {
    img.src != [] && img.width > MinWidth && !Text.Contains(img.src, SpinnerMarker)
  }

  /** The ranking key; it uses the intrinsic size, not the rendered width of the filter. */
  function Area(img: Image): nat {
    img.naturalWidth * img.naturalHeight
  }

  /**
   * The positions of the candidates, in document order: strictly
   * increasing, each a candidate, and every candidate position is listed.
   */
  function CandidateIndices(imgs: seq<Image>): (ix: seq<nat>)
    ensures forall m :: 0 <= m < |ix| ==> ix[m] < |imgs| && IsCandidate(imgs[ix[m]])
    ensures forall m, n :: 0 <= m < n < |ix| ==> ix[m] < ix[n]
    ensures forall j :: 0 <= j < |imgs| && IsCandidate(imgs[j]) ==> j in ix
  {
    if imgs == [] then []
    else
      var init := imgs[..|imgs| - 1];
      assert forall j :: 0 <= j < |init| ==> init[j] == imgs[j];
      CandidateIndices(init) + (if IsCandidate(imgs[|imgs| - 1]) then [|imgs| - 1] else [])
  }

  /** `[...document.images].filter(...)`. */
  function Candidates(imgs: seq<Image>): seq<Image> {
    var ix := CandidateIndices(imgs);
    seq(|ix|, m requires 0 <= m < |ix| => imgs[ix[m]])
  }

  /** Position `k` of `c` holds a largest area, and every earlier position a strictly smaller one. */
  predicate IsFirstLargest(c: seq<Image>, k: nat) {
    && k < |c|
    && (forall j :: 0 <= j < |c| ==> Area(c[j]) <= Area(c[k]))
    && (forall j :: 0 <= j < k ==> Area(c[j]) < Area(c[k]))
  }

  /**
   * The scan `largest = imgs[0]; for (img of imgs) if (area(img) > area(largest)) largest = img`,
   * as the position it ends on. The strict comparison keeps the first of equal areas.
   */
  function LargestIndex(c: seq<Image>): (k: nat)
    requires |c| > 0
    ensures IsFirstLargest(c, k)
  {
    if |c| == 1 then 0
    else
      var init := c[..|c| - 1];
      var k := LargestIndex(init);
      assert forall j :: 0 <= j < |init| ==> init[j] == c[j];
      if Area(c[|c| - 1]) > Area(c[k]) then |c| - 1 else k
  }

  /** The first largest position is unique: no other position has that property. */
  lemma FirstLargestUnique(c: seq<Image>, k1: nat, k2: nat)
    requires IsFirstLargest(c, k1)
    requires k2 < |c| && k2 != k1
    ensures !IsFirstLargest(c, k2)
  {
    if k2 < k1 {
      assert Area(c[k2]) < Area(c[k1]);
    } else {
      assert Area(c[k2]) <= Area(c[k1]);
    }
  }

  /** Position `k` of the page holds the first largest candidate. */
  predicate IsFirstLargestCandidate(imgs: seq<Image>, k: nat) {
    && k < |imgs|
    && IsCandidate(imgs[k])
    && (forall j :: 0 <= j < |imgs| && IsCandidate(imgs[j]) ==> Area(imgs[j]) <= Area(imgs[k]))
    && (forall j :: 0 <= j < k && IsCandidate(imgs[j]) ==> Area(imgs[j]) < Area(imgs[k]))
  }

  /**
   * The in-page extraction, as the position of the image whose `src` it
   * returns: `None` (the script's `null`) when no image passes the filter,
   * otherwise the first candidate of largest natural area.
   */
  function SelectImage(imgs: seq<Image>): (r: Option<nat>)
    ensures r.None? <==> forall j :: 0 <= j < |imgs| ==> !IsCandidate(imgs[j])
    ensures r.Some? ==> IsFirstLargestCandidate(imgs, r.value)
  {
    var c := Candidates(imgs);
    if |c| == 0 then None
    else
      var m := LargestIndex(c);
      CandidateRankIsPageRank(imgs, m);
      Some(CandidateIndices(imgs)[m])
  }

  /** The first largest candidate in the filtered list is the first largest candidate of the page. */
  lemma CandidateRankIsPageRank(imgs: seq<Image>, m: nat)
    requires IsFirstLargest(Candidates(imgs), m)
    ensures IsFirstLargestCandidate(imgs, CandidateIndices(imgs)[m])
  {
    var ix := CandidateIndices(imgs);
    var c := Candidates(imgs);
    var k := ix[m];
    forall j | 0 <= j < |imgs| && IsCandidate(imgs[j])
      ensures Area(imgs[j]) <= Area(imgs[k])
      ensures j < k ==> Area(imgs[j]) < Area(imgs[k])
    {
      var n :| 0 <= n < |ix| && ix[n] == j;
      assert c[n] == imgs[j];
      if j < k {
        assert n < m;
      }
    }
  }

  /** A URL without the letter `i` cannot mention a spinner. */
  lemma NoSpinnerWithoutI(src: string)
    requires 'i' !in src
    ensures !Text.Contains(src, SpinnerMarker)
  {
    forall i: nat ensures !Text.OccursAt(src, SpinnerMarker, i) {
      if i + |SpinnerMarker| <= |src| {
        assert src[i..i + |SpinnerMarker|][2] == src[i + 2];
      }
    }
  }

  /** When exactly one image qualifies, it is the one selected. */
  lemma SoleCandidateIsSelected(imgs: seq<Image>, k: nat)
    requires k < |imgs| && IsCandidate(imgs[k])
    requires forall j :: 0 <= j < |imgs| && j != k ==> !IsCandidate(imgs[j])
    ensures SelectImage(imgs) == Some(k)
  {
    assert SelectImage(imgs).Some?;
  }

  lemma SpinnerGifIsSpinner()
    ensures Text.Contains("/out/spinner.gif", SpinnerMarker)
  {
    var src := "/out/spinner.gif";
    assert src[5..12] == SpinnerMarker;
    assert Text.OccursAt(src, SpinnerMarker, 5);
  }

  const SpinnerExample: seq<Image> := [
    Image("/out/a.png", 50, 50, 50),
    Image("/out/b.png", 300, 90, 100),
    Image("/out/spinner.gif", 400, 200, 100)
  ]

  /**
   * A wide spinner is passed over even when it is the largest image: widths
   * 50, 300 and 400 with areas 2500, 9000 and 20000, the last one a spinner,
   * select the 300-wide image.
   */
  lemma SpinnerIsPassedOver()
    ensures SelectImage(SpinnerExample) == Some(1)
    ensures SpinnerExample[1].src == "/out/b.png"
  {
    ExampleCandidates();
    SoleCandidateIsSelected(SpinnerExample, 1);
  }

  lemma ExampleCandidates()
    ensures !IsCandidate(SpinnerExample[0])
    ensures IsCandidate(SpinnerExample[1])
    ensures !IsCandidate(SpinnerExample[2])
  {
    NoSpinnerWithoutI(SpinnerExample[1].src);
    SpinnerGifIsSpinner();
  }
}
