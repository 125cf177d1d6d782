/**
  The navigation bar (`UI` in src/components/UI.jsx): one button per page of
  the catalogue, then a "Back Cover" button. Each button requests one page,
  and the button whose request equals the current page is highlighted.
*/
module Navigation {

  datatype Label = CoverLabel | PageLabel(number: nat) | BackCoverLabel

  datatype Button = Button(caption: Label, request: int, highlighted: bool)

  /** The buttons shown for a book of `pageCount` pages while `page` is the
      requested page. */
  function Buttons(pageCount: nat, page: int): (bs: seq<Button>)
    ensures |bs| == pageCount + 1
    ensures forall i :: 0 <= i < |bs| ==> 0 <= bs[i].request <= pageCount
    ensures forall q :: 0 <= q <= pageCount ==> bs[q].request == q
    ensures bs[pageCount].caption == BackCoverLabel
  {
    seq(pageCount, (i: nat) =>
      Button(if i == 0 then CoverLabel else PageLabel(i), i, i == page))
    + [Button(BackCoverLabel, pageCount, page == pageCount)]
  }

  /** The positions of the highlighted buttons. */
  function HighlightedAt(bs: seq<Button>): (positions: set<nat>) {
    set i: nat | i < |bs| && bs[i].highlighted
  }

  /** A button is highlighted exactly when it requests the current page, so
      for a page in `[0, pageCount]` exactly one button is highlighted, and
      for any other page none is. */
  lemma ExactlyOneHighlighted(pageCount: nat, page: int)
    ensures 0 <= page <= pageCount ==> HighlightedAt(Buttons(pageCount, page)) == {page as nat}
    ensures !(0 <= page <= pageCount) ==> HighlightedAt(Buttons(pageCount, page)) == {}
    ensures forall i :: 0 <= i < pageCount + 1 ==>
              (Buttons(pageCount, page)[i].highlighted <==> Buttons(pageCount, page)[i].request == page)
  {
  }
}
