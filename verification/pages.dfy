/**
  What each rendered page of the book derives from the settled page
  (`Book` and `Page` in src/components/Book.jsx): whether it is opened,
  whether the book as a whole is closed, which page a click on it requests,
  which rotation target each segment of its bone chain receives when the
  book is closed, and the shape of that bone chain.
*/
module BookPage {
  import opened Wrappers

  /** Page `index` lies on the left-hand (opened) stack. */
  predicate Opened(delayed: int, index: int) {
    delayed > index
  }

  /** The number of `true` entries of `flags`. */
  function CountTrue(flags: seq<bool>): (n: nat)
    decreases |flags|
  {
    if |flags| == 0 then 0 else (if flags[0] then 1 else 0) + CountTrue(flags[1..])
  }

  function Repeat(b: bool, n: nat): (r: seq<bool>) {
    seq(n, _ => b)
  }

  lemma {:induction false} CountTrueAppend(a: seq<bool>, b: seq<bool>)
    ensures CountTrue(a + b) == CountTrue(a) + CountTrue(b)
    decreases |a|
  {
    if |a| == 0 {
      assert a + b == b;
    } else {
      assert (a + b)[1..] == a[1..] + b;
      CountTrueAppend(a[1..], b);
    }
  }

  lemma {:induction false} CountRepeat(b: bool, n: nat)
    ensures CountTrue(Repeat(b, n)) == (if b then n else 0)
    decreases n
  {
    if n > 0 {
      assert Repeat(b, n)[1..] == Repeat(b, n - 1);
      CountRepeat(b, n - 1);
    }
  }

  /** The `opened` flag each of the `pageCount` pages is rendered with. With
      the settled page in range, the opened pages are exactly the first
      `delayed` ones: a prefix of `true` followed by `false`, so that
      `delayed` pages are opened. */
  function OpenedFlags(delayed: int, pageCount: nat): (flags: seq<bool>)
    ensures |flags| == pageCount
    ensures forall i :: 0 <= i < pageCount ==> (flags[i] <==> Opened(delayed, i))
    ensures 0 <= delayed <= pageCount ==>
              && flags == Repeat(true, delayed) + Repeat(false, pageCount - delayed)
              && CountTrue(flags) == delayed
  {
    var flags := seq(pageCount, i => Opened(delayed, i));
    if 0 <= delayed <= pageCount then
      assert flags == Repeat(true, delayed) + Repeat(false, pageCount - delayed);
      CountTrueAppend(Repeat(true, delayed), Repeat(false, pageCount - delayed));
      CountRepeat(true, delayed);
      CountRepeat(false, pageCount - delayed);
      flags
    else
      flags
  }

  /** The book shows only its front or only its back cover: with the settled
      page in range, exactly when every page is closed or every page is
      opened. */
  function BookClosed(delayed: int, pageCount: nat): (closed: bool)
    ensures 0 <= delayed <= pageCount ==>
              (closed <==>
                 (forall i :: 0 <= i < pageCount ==> !Opened(delayed, i)) ||
                 (forall i :: 0 <= i < pageCount ==> Opened(delayed, i)))
  {
    assert 0 < delayed < pageCount ==> Opened(delayed, 0) && !Opened(delayed, delayed);
    delayed == 0 || delayed == pageCount
  }

  /** The page a click on page `number` requests: an opened page turns back
      to itself, a closed page turns over to the next. */
  function ClickRequest(delayed: int, number: int): (p: int)
    ensures p == number || p == number + 1
    ensures Opened(p, number) == !Opened(delayed, number)
  {
    if Opened(delayed, number) then number else number + 1
  }

  /** Once the settled page reaches the requested page, the clicked page's
      flag has flipped, and a flag of another page has changed exactly when
      that page lies between the old and the new settled page. */
  lemma ClickFlips(delayed: int, number: int, pageCount: nat)
    requires 0 <= delayed <= pageCount
    requires 0 <= number < pageCount
    ensures var after := OpenedFlags(ClickRequest(delayed, number), pageCount);
            var before := OpenedFlags(delayed, pageCount);
            && after[number] == !before[number]
            && forall i :: 0 <= i < pageCount ==>
                 (after[i] != before[i] <==>
                    (number <= i < delayed) || (delayed <= i <= number))
  {
  }

  /** Clicking the top page of either stack turns exactly that page. */
  lemma ClickTopPageFlipsOnlyIt(delayed: int, number: int, pageCount: nat)
    requires 0 <= delayed <= pageCount
    requires 0 <= number < pageCount
    requires number == delayed - 1 || number == delayed
    ensures var after := OpenedFlags(ClickRequest(delayed, number), pageCount);
            var before := OpenedFlags(delayed, pageCount);
            && after[number] == !before[number]
            && forall i :: 0 <= i < pageCount && i != number ==> after[i] == before[i]
  {
  }

  // ---------------------------------------------------------------------
  // Segment targets

  /** The per-segment values the bend curve computes before the closed-book
      override: the turn-axis target, the fold-axis base angle and the fold
      intensity. Their trigonometry is not modelled; they are opaque reals. */
  datatype CurveTerms = CurveTerms(rotation: real, foldRotation: real, foldIntensity: real)

  /** The turn-axis and fold-axis angles a segment is damped toward. */
  datatype Target = Target(turn: real, fold: real)

  /** The target of segment `i`: with the book closed, segment 0 (the page's
      pivot) takes the page's whole rotation and every other joint rests
      flat; otherwise the curve's values stand. The fold target is the fold
      angle scaled by the fold intensity. */
  function SegmentTarget(i: nat, bookClosed: bool, targetRotation: real, c: CurveTerms): (t: Target)
    ensures bookClosed && i == 0 ==> t == Target(targetRotation, 0.0)
    ensures bookClosed && i != 0 ==> t == Target(0.0, 0.0)
    ensures !bookClosed ==> t == Target(c.rotation, c.foldRotation * c.foldIntensity)
  {
    var turn := if bookClosed then (if i == 0 then targetRotation else 0.0) else c.rotation;
    var fold := if bookClosed then 0.0 else c.foldRotation;
    Target(turn, fold * c.foldIntensity)
  }

  function SegmentTargets(bookClosed: bool, targetRotation: real, curves: seq<CurveTerms>): (ts: seq<Target>)
    ensures |ts| == |curves|
    ensures bookClosed && |ts| > 0 ==> ts[0] == Target(targetRotation, 0.0)
    ensures bookClosed ==> forall i :: 1 <= i < |ts| ==> ts[i] == Target(0.0, 0.0)
    ensures !bookClosed ==> forall i :: 0 <= i < |ts| ==>
              ts[i] == Target(curves[i].rotation, curves[i].foldRotation * curves[i].foldIntensity)
  {
    seq(|curves|, i requires 0 <= i < |curves| => SegmentTarget(i, bookClosed, targetRotation, curves[i]))
  }

  /** A closed book holds every page rigid whatever the curve says: its
      segment targets do not depend on the curve values at all. */
  lemma ClosedBookIsRigid(targetRotation: real, curves: seq<CurveTerms>, other: seq<CurveTerms>)
    requires |other| == |curves|
    ensures SegmentTargets(true, targetRotation, curves) == SegmentTargets(true, targetRotation, other)
  {
  }

  // ---------------------------------------------------------------------
  // Bone chain

  /** Number of segments a page is divided into. */
  const PageSegments: nat := 30

  /** Where a bone sits relative to its parent: the first bone at the page's
      spine, every other one a segment width further out. */
  datatype Offset = AtOrigin | OneSegment

  datatype Bone = Bone(parent: Option<nat>, offset: Offset)

  /** `bones` is a strict chain: bone 0 is the root at the spine and every
      other bone hangs one segment width beyond its predecessor. */
  predicate IsChain(bones: seq<Bone>) {
    && |bones| > 0
    && bones[0] == Bone(None, AtOrigin)
    && forall i :: 1 <= i < |bones| ==> bones[i] == Bone(Some(i - 1), OneSegment)
  }

  /** Every parent comes before its child, so following parents ends. */
  predicate ParentsPrecede(bones: seq<Bone>) {
    forall i :: 0 <= i < |bones| && bones[i].parent.Some? ==> bones[i].parent.value < i
  }

  /** Builds the bones of one page, each attached to the previous one.
      The book builds every page with `segments == PageSegments`. */
  method BuildBones(segments: nat) returns (bones: seq<Bone>)
    ensures |bones| == segments + 1
    ensures IsChain(bones)
  {
    bones := [];
    var i := 0;
    while i <= segments
      invariant 0 <= i <= segments + 1
      invariant |bones| == i
      invariant i > 0 ==> bones[0] == Bone(None, AtOrigin)
      invariant forall j :: 1 <= j < i ==> bones[j] == Bone(Some(j - 1), OneSegment)
    {
      var bone := if i == 0 then Bone(None, AtOrigin) else Bone(Some(i - 1), OneSegment);
      bones := bones + [bone];
      i := i + 1;
    }
  }

  /** The number of parent links from bone `i` up to the root. */
  function Depth(bones: seq<Bone>, i: nat): (n: nat)
    requires i < |bones|
    requires ParentsPrecede(bones)
    decreases i
  {
    match bones[i].parent
    case None => 0
    case Some(p) => 1 + Depth(bones, p)
  }

  /** Bone `i`'s distance from the spine, in segment widths: the sum of the
      offsets along its path to the root. */
  function SpineDistance(bones: seq<Bone>, i: nat): (n: nat)
    requires i < |bones|
    requires ParentsPrecede(bones)
    decreases i
  {
    (if bones[i].offset == OneSegment then 1 else 0) +
    match bones[i].parent
    case None => 0
    case Some(p) => SpineDistance(bones, p)
  }

  /** In a chain, bone `i` is `i` links below the root and `i` segment
      widths from the spine. */
  lemma {:induction false} ChainPosition(bones: seq<Bone>, i: nat)
    requires IsChain(bones)
    requires i < |bones|
    ensures ParentsPrecede(bones)
    ensures Depth(bones, i) == i
    ensures SpineDistance(bones, i) == i
    decreases i
  {
    assert ParentsPrecede(bones) by {
      forall j | 0 <= j < |bones| && bones[j].parent.Some?
        ensures bones[j].parent.value < j
      {
      }
    }
    if i > 0 {
      ChainPosition(bones, i - 1);
    }
  }
}
