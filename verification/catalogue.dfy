/**
  The page catalogue of the album (`pages` in src/components/UI.jsx): the
  pictures are paired into front/back faces of physical pages, behind a
  cover page and before a back-cover page.

  JavaScript reads a missing array element as `undefined`; here such a read
  is `None`, so the catalogue is defined for every picture list, the empty
  one included.
*/
module Catalogue {
  import opened Wrappers

  const CoverFace: string := "gcc-cover"
  const BackFace: string := "gcc-back"

  /** The album's pictures. */
  const Pictures: seq<string> :=
    ["gcc-01", "gcc-02", "gcc-03", "gcc-04", "gcc-05",
     "gcc-06", "gcc-07", "gcc-08", "gcc-09", "gcc-10"]

  datatype PageFaces = PageFaces(front: Option<string>, back: Option<string>)

  /** A JavaScript array read `xs[i]`. */
  function At(xs: seq<string>, i: int): (r: Option<string>) {
    if 0 <= i < |xs| then Some(xs[i]) else None
  }

  /** Every entry of `xs`, as a present value. */
  function Present(xs: seq<string>): (r: seq<Option<string>>)
    ensures |r| == |xs|
  {
    seq(|xs|, k requires 0 <= k < |xs| => Some(xs[k]))
  }

  /** How many iterations the pairing loop makes when started at `i`. */
  function MiddleCount(len: nat, i: nat): (n: nat)
    decreases len - i
  {
    if i < len - 1 then 1 + MiddleCount(len, i + 2) else 0
  }

  /** Started at 1, the pairing loop runs `floor((len - 1) / 2)` times. */
  lemma {:induction false} MiddleCountFormula(len: nat, i: nat)
    ensures i <= len ==> MiddleCount(len, i) == (len - i) / 2
    decreases len - i
  {
    if i < len - 1 {
      MiddleCountFormula(len, i + 2);
    }
  }

  /** A remainder that does not wrap. */
  lemma ModSmall(x: nat, n: nat)
    requires x < n
    ensures x % n == x
  {
  }

  /** The pages the pairing loop pushes from index `i` on: pictures `i` and
      `i + 1`, each read modulo the picture count, while `i < len - 1`.
      The modulo never wraps: every page holds the two pictures that
      follow, in order. */
  function MiddlePages(pictures: seq<string>, i: nat): (ps: seq<PageFaces>)
    ensures |ps| == MiddleCount(|pictures|, i)
    ensures forall k {:trigger ps[k]} :: 0 <= k < |ps| ==>
              i + 2 * k + 1 < |pictures| &&
              ps[k] == PageFaces(Some(pictures[i + 2 * k]), Some(pictures[i + 2 * k + 1]))
    decreases |pictures| - i
  {
    if i < |pictures| - 1 then
      ModSmall(i, |pictures|);
      ModSmall(i + 1, |pictures|);
      var rest := MiddlePages(pictures, i + 2);
      var ps := [PageFaces(At(pictures, i % |pictures|), At(pictures, (i + 1) % |pictures|))] + rest;
      assert ps[0] == PageFaces(Some(pictures[i]), Some(pictures[i + 1]));
      assert forall k :: 1 <= k < |ps| ==>
               i + 2 * k + 1 < |pictures| &&
               ps[k] == PageFaces(Some(pictures[i + 2 * k]), Some(pictures[i + 2 * k + 1])) by {
        forall k | 1 <= k < |ps|
          ensures i + 2 * k + 1 < |pictures|
          ensures ps[k] == PageFaces(Some(pictures[i + 2 * k]), Some(pictures[i + 2 * k + 1]))
        {
          assert ps[k] == rest[k - 1];
        }
      }
      ps
    else
      []
  }

  /** `pages` lays out `pictures` as the album does: the cover page with
      the first picture behind it, middle page `q` showing pictures `2q - 1`
      and `2q`, and the last picture in front of the back cover. */
  predicate IsLayoutOf(pages: seq<PageFaces>, pictures: seq<string>) {
    && |pages| == MiddleCount(|pictures|, 1) + 2
    && pages[0] == PageFaces(Some(CoverFace), At(pictures, 0))
    && pages[|pages| - 1] == PageFaces(At(pictures, |pictures| - 1), Some(BackFace))
    && forall q {:trigger pages[q]} :: 1 <= q < |pages| - 1 ==>
         2 * q < |pictures| &&
         pages[q] == PageFaces(Some(pictures[2 * q - 1]), Some(pictures[2 * q]))
  }

  /** The catalogue: the cover page, the paired middle pages and the
      back-cover page. */
  function BuildPages(pictures: seq<string>): (pages: seq<PageFaces>)
    ensures IsLayoutOf(pages, pictures)
  {
    var middle := MiddlePages(pictures, 1);
    var pages := [PageFaces(Some(CoverFace), At(pictures, 0))]
      + middle
      + [PageFaces(At(pictures, |pictures| - 1), Some(BackFace))];
    assert forall q :: 1 <= q < |pages| - 1 ==>
             2 * q < |pictures| &&
             pages[q] == PageFaces(Some(pictures[2 * q - 1]), Some(pictures[2 * q])) by {
      forall q | 1 <= q < |pages| - 1
        ensures 2 * q < |pictures|
        ensures pages[q] == PageFaces(Some(pictures[2 * q - 1]), Some(pictures[2 * q]))
      {
        assert pages[q] == middle[q - 1];
      }
    }
    pages
  }

  /** The catalogue has `floor((len - 1) / 2) + 2` pages, and two when there
      are no pictures at all. */
  lemma PageCount(pictures: seq<string>)
    ensures |pictures| >= 1 ==> |BuildPages(pictures)| == (|pictures| - 1) / 2 + 2
    ensures |pictures| == 0 ==> |BuildPages(pictures)| == 2
  {
    MiddleCountFormula(|pictures|, 1);
  }

  /** The faces of `pages` in reading order: front 0, back 0, front 1, ... */
  function Faces(pages: seq<PageFaces>): (fs: seq<Option<string>>)
    ensures |fs| == 2 * |pages|
    decreases |pages|
  {
    if |pages| == 0 then [] else [pages[0].front, pages[0].back] + Faces(pages[1..])
  }

  /** Page `k`'s faces sit at positions `2k` and `2k + 1` of the reading. */
  lemma {:induction false} FacesAt(pages: seq<PageFaces>, k: nat)
    requires k < |pages|
    ensures Faces(pages)[2 * k] == pages[k].front
    ensures Faces(pages)[2 * k + 1] == pages[k].back
    decreases k
  {
    if k > 0 {
      FacesAt(pages[1..], k - 1);
    }
  }

  /** The faces of middle page `q` of a layout read pictures `2q - 1` and `2q`. */
  lemma LayoutMiddleFaces(pages: seq<PageFaces>, pictures: seq<string>, q: nat)
    requires IsLayoutOf(pages, pictures)
    requires 1 <= q < |pages| - 1
    ensures 2 * q < |pictures|
    ensures Faces(pages)[2 * q] == Some(pictures[2 * q - 1])
    ensures Faces(pages)[2 * q + 1] == Some(pictures[2 * q])
  {
    assert pages[q] == PageFaces(Some(pictures[2 * q - 1]), Some(pictures[2 * q]));
    FacesAt(pages, q);
  }

  /** Every natural number is twice some `q`, or one more. */
  lemma Halve(m: nat) returns (q: nat)
    ensures m == 2 * q || m == 2 * q + 1
  {
    q := m / 2;
  }

  /** The faces of a layout's middle pages read the pictures from the
      second on. */
  lemma LayoutFaceAt(pages: seq<PageFaces>, pictures: seq<string>, m: nat)
    requires IsLayoutOf(pages, pictures)
    requires 2 <= m <= 2 * |pages| - 3
    ensures m - 1 < |pictures|
    ensures Faces(pages)[m] == Some(pictures[m - 1])
  {
    var q := Halve(m);
    assert 1 <= q < |pages| - 1;
    LayoutMiddleFaces(pages, pictures, q);
    if m == 2 * q {
      assert Faces(pages)[m] == Some(pictures[2 * q - 1]);
    } else {
      assert Faces(pages)[m] == Some(pictures[2 * q]);
    }
  }

  /** Reading a layout's faces in order gives the cover, every picture
      once and in order, and the back cover. With an odd picture count the
      last picture is read a second time, as the front of the back-cover
      page. With no pictures at all, both inner faces are missing. */
  lemma LayoutReadingOrder(pages: seq<PageFaces>, pictures: seq<string>)
    requires IsLayoutOf(pages, pictures)
    ensures |pictures| == 0 ==>
              Faces(pages) == [Some(CoverFace), None, None, Some(BackFace)]
    ensures |pictures| > 0 && |pictures| % 2 == 0 ==>
              Faces(pages) == [Some(CoverFace)] + Present(pictures) + [Some(BackFace)]
    ensures |pictures| % 2 == 1 ==>
              Faces(pages) ==
                [Some(CoverFace)] + Present(pictures) + [Some(pictures[|pictures| - 1]), Some(BackFace)]
  {
    var n := |pictures|;
    var fs := Faces(pages);
    if n == 0 {
      FacesAt(pages, 0);
      FacesAt(pages, 1);
      return;
    }
    var c := MiddleCount(n, 1);
    MiddleCountFormula(n, 1);
    assert n % 2 == 0 ==> 2 * c == n - 2;
    assert n % 2 == 1 ==> 2 * c == n - 1;
    var tail := if n % 2 == 0 then [Some(BackFace)] else [Some(pictures[n - 1]), Some(BackFace)];
    var expected := [Some(CoverFace)] + Present(pictures) + tail;
    assert |fs| == |expected|;
    FacesAt(pages, 0);
    FacesAt(pages, c + 1);
    forall m | 0 <= m < |fs|
      ensures fs[m] == expected[m]
    {
      if 2 <= m <= 2 * c + 1 {
        LayoutFaceAt(pages, pictures, m);
      }
    }
  }

  /** The catalogue built from any picture list reads as above. */
  lemma ReadingOrder(pictures: seq<string>)
    ensures |pictures| == 0 ==>
              Faces(BuildPages(pictures)) == [Some(CoverFace), None, None, Some(BackFace)]
    ensures |pictures| > 0 && |pictures| % 2 == 0 ==>
              Faces(BuildPages(pictures)) == [Some(CoverFace)] + Present(pictures) + [Some(BackFace)]
    ensures |pictures| % 2 == 1 ==>
              Faces(BuildPages(pictures)) ==
                [Some(CoverFace)] + Present(pictures) + [Some(pictures[|pictures| - 1]), Some(BackFace)]
  {
    LayoutReadingOrder(BuildPages(pictures), pictures);
  }

  /** The album's ten pictures make six pages that read the cover, the
      pictures in order and the back cover. */
  lemma AlbumCatalogue()
    ensures |BuildPages(Pictures)| == 6
    ensures Faces(BuildPages(Pictures)) == [Some(CoverFace)] + Present(Pictures) + [Some(BackFace)]
  {
    PageCount(Pictures);
    ReadingOrder(Pictures);
  }
}
