/**
  The book as a whole: the sequencer driven only by the requests the user
  interface can make (navigation buttons and clicks on pages), and the
  pages' flags read from its settled page.
*/
module Book {
  import opened Wrappers
  import opened Sequencer
  import opened BookPage
  import opened Catalogue
  import opened Navigation

  /** The number of pages of the album. */
  function AlbumPageCount(): (n: nat)
    ensures n == 6
  {
    AlbumCatalogue();
    |BuildPages(Pictures)|
  }

  /** Both the requested and the settled page lie in `[0, pageCount]`. */
  predicate InRange(s: BookState, pageCount: nat) {
    0 <= s.page <= pageCount && 0 <= s.delayed <= pageCount
  }

  /** An event the user interface can cause: a timer firing, or a request
      for a page in `[0, pageCount]`. */
  predicate Requestable(e: Event, pageCount: nat) {
    match e
    case TimerFires => true
    case RequestPage(p) => 0 <= p <= pageCount
  }

  /** Every request the user interface makes is requestable: a navigation
      button's, and a click's on any page of the book. */
  lemma UserRequestsRequestable(pageCount: nat, page: int, delayed: int, number: int, i: nat)
    requires 0 <= number < pageCount
    requires i <= pageCount
    ensures Requestable(RequestPage(Buttons(pageCount, page)[i].request), pageCount)
    ensures Requestable(RequestPage(ClickRequest(delayed, number)), pageCount)
  {
  }

  /** The sequencer never leaves `[0, pageCount]` when fed only requestable
      events: the code clamps nothing, so the range comes from the callers. */
  lemma {:induction false} StaysInRange(s: BookState, es: seq<Event>, pageCount: nat)
    requires Valid(s) && InRange(s, pageCount)
    requires forall i :: 0 <= i < |es| ==> Requestable(es[i], pageCount)
    ensures Valid(ApplyAll(s, es)) && InRange(ApplyAll(s, es), pageCount)
    decreases |es|
  {
    if |es| > 0 {
      var t := Apply(s, es[0]);
      assert InRange(t, pageCount) by {
        match es[0]
        case TimerFires =>
        case RequestPage(p) =>
      }
      StaysInRange(t, es[1..], pageCount);
    }
  }

  /** A click on page `number` turns exactly the pages between the old
      settled page and the requested one, and the clicked page among them,
      once the sequencer has settled. */
  lemma ClickSettles(s: BookState, number: int, pageCount: nat)
    requires Valid(s) && InRange(s, pageCount)
    requires 0 <= number < pageCount
    ensures var target := ClickRequest(s.delayed, number);
            var t := Retarget(s, target);
            var settled := Run(t, Gap(t));
            && settled.delayed == target
            && OpenedFlags(settled.delayed, pageCount)[number] == !OpenedFlags(s.delayed, pageCount)[number]
            && CountTrue(OpenedFlags(settled.delayed, pageCount)) == target
  {
    var target := ClickRequest(s.delayed, number);
    var t := Retarget(s, target);
    Converges(t);
    ClickFlips(s.delayed, number, pageCount);
  }

  /** From a closed book, requesting the back cover opens every page: the
      settled page steps through all `pageCount` pages, one scheduled timer
      per page, and the book is closed again at the end. */
  lemma OpenWholeBook(pageCount: nat)
    requires pageCount >= 1
    ensures var t := Retarget(Init(0), pageCount);
            && t.delayed == 1
            && Run(t, pageCount - 1).delayed == pageCount
            && (forall k :: 0 <= k < pageCount - 1 ==> Run(t, k).delayed == k + 1)
            && OpenedFlags(Run(t, pageCount - 1).delayed, pageCount) == Repeat(true, pageCount)
            && BookClosed(Run(t, pageCount - 1).delayed, pageCount)
            && (forall k :: 0 <= k < pageCount ==> Run(t, k).pending.Some?)
            && Run(t, pageCount).pending.None?
  {
    var t := Retarget(Init(0), pageCount);
    Converges(t);
    forall k | 0 <= k < pageCount - 1
      ensures Run(t, k).delayed == k + 1
    {
      RunPosition(t, k);
    }
    forall k | 0 < k < pageCount
      ensures Run(t, k).pending.Some?
    {
      RunPosition(t, k - 1);
    }
    assert Repeat(true, pageCount) + Repeat(false, 0) == Repeat(true, pageCount);
  }

  /** A jump from the cover to page 10 sets 10 timers: 50 ms ones while more
      than two pages remain, then two of 150 ms, after which the sequencer
      is idle at page 10. */
  lemma JumpTenPages()
    ensures var t := Retarget(Init(0), 10);
            && (forall k :: 0 <= k < 10 ==>
                  Run(t, k).delayed == k + 1 &&
                  Run(t, k).pending == Some(if k < 8 then 50 else 150))
            && Run(t, 10) == BookState(10, 10, None)
  {
    var t := Retarget(Init(0), 10);
    assert t == BookState(10, 1, Some(50));
    forall k | 0 <= k < 10
      ensures Run(t, k).delayed == k + 1
      ensures Run(t, k).pending == Some(if k < 8 then 50 else 150)
    {
      RunPosition(t, k);
      if k > 0 {
        RunPosition(t, k - 1);
      }
    }
    Converges(t);
  }

  /** Request page 10, let two steps happen, then request page 3: the timer
      toward 10 is dropped and stepping resumes from page 2 toward 3,
      passing neither. */
  lemma RetargetMidJump()
    ensures var s := ApplyAll(Init(0), [RequestPage(10), TimerFires]);
            && s == BookState(10, 2, Some(50))
            && Retarget(s, 3) == BookState(3, 3, Some(150))
            && Fire(Retarget(s, 3)) == BookState(3, 3, None)
  {
  }
}
