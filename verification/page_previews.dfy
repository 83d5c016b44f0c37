/** The lazy page-preview scheduler of `app/components/ConverterApp.tsx`:
    pages report visibility changes, visible pages that are not loaded join
    a FIFO queue without duplicates, and a single-flight worker renders the
    head of the queue, dropping heads that became invisible or got loaded
    in the meantime. A page is marked loaded before its render starts and
    unmarked if the render fails; successful renders are kept in a preview
    list sorted by page. `loadAllPages` renders every page not loaded yet.

    The worker suspends while a page renders; the model makes that
    suspension an explicit event (`RenderComplete`) whose outcome is an
    oracle value. The refs the worker reads are modelled as always up to
    date. */
module PagePreviews {
  import opened Common

  /** A rendered page: its 0-based index and the rendered picture. */
  datatype PagePreview = PagePreview(page: nat, image: Bytes)

  // ------------------------------------------------------- preview list

  /** Strictly increasing pages: sorted, one entry per page. */
  predicate Sorted(ps: seq<PagePreview>) {
    forall i, j :: 0 <= i < j < |ps| ==> ps[i].page < ps[j].page
  }

  function Pages(ps: seq<PagePreview>): set<nat> {
    set pv | pv in ps :: pv.page
  }

  /** `prev.findIndex((p) => p.page === page)` */
  function FindPage(ps: seq<PagePreview>, page: nat): (r: Option<nat>)
    ensures r.Some? ==> r.value < |ps| && ps[r.value].page == page
  {
    if ps == [] then None
    else if ps[0].page == page then Some(0)
    else match FindPage(ps[1..], page)
      case None => None
      case Some(k) => Some(k + 1)
  }

  /** The picture shown for a page, if any. */
  function PreviewOf(ps: seq<PagePreview>, page: nat): Option<Bytes> {
    match FindPage(ps, page)
    case None => None
    case Some(k) => Some(ps[k].image)
  }

  /** Appending to a sorted list and sorting it by page, for a page not in
      the list: the new entry goes before the first entry with a larger
      page. */
  function InsertSorted(ps: seq<PagePreview>, pv: PagePreview): seq<PagePreview> {
    if ps == [] then [pv]
    else if pv.page < ps[0].page then [pv] + ps
    else [ps[0]] + InsertSorted(ps[1..], pv)
  }

  /** The `setPagePreviews` update of `loadPagePreview`: an existing entry
      for the page is replaced in place, otherwise the preview is added and
      the list re-sorted by page. */
  function InsertPreview(ps: seq<PagePreview>, pv: PagePreview): seq<PagePreview> {
    match FindPage(ps, pv.page)
    case Some(k) => ps[k := pv]
    case None => InsertSorted(ps, pv)
  }

  lemma {:induction false} FindPageNone(ps: seq<PagePreview>, page: nat)
    ensures FindPage(ps, page).None? <==> page !in Pages(ps)
  {
    if ps != [] {
      FindPageNone(ps[1..], page);
      assert ps == [ps[0]] + ps[1..];
      if page in Pages(ps) && ps[0].page != page {
        var x :| x in ps && x.page == page;
        assert x in ps[1..];
      }
    }
  }

  /** In a sorted list an entry's page is found at that entry. */
  lemma {:induction false} FindPageAt(ps: seq<PagePreview>, k: nat)
    requires Sorted(ps) && k < |ps|
    ensures FindPage(ps, ps[k].page) == Some(k)
  {
    if k > 0 {
      assert ps[0].page < ps[k].page;
      FindPageAt(ps[1..], k - 1);
    }
  }

  /** In a sorted list the picture for a page is the one entry with that
      page, and there is one exactly when the page is listed. */
  lemma PreviewOfSpec(ps: seq<PagePreview>, page: nat, img: Bytes)
    requires Sorted(ps)
    ensures PreviewOf(ps, page) == Some(img) <==> PagePreview(page, img) in ps
    ensures PreviewOf(ps, page).None? <==> page !in Pages(ps)
  {
    FindPageNone(ps, page);
    if PagePreview(page, img) in ps {
      var k :| 0 <= k < |ps| && ps[k] == PagePreview(page, img);
      FindPageAt(ps, k);
    }
  }

  /** Lists with the same contents list the same pages. */
  lemma PagesOfMultiset(a: seq<PagePreview>, b: seq<PagePreview>)
    requires multiset(a) == multiset(b)
    ensures Pages(a) == Pages(b)
  {
    assert forall x :: x in a <==> x in b by {
      forall x ensures x in a <==> x in b {
        assert x in a <==> x in multiset(a);
        assert x in b <==> x in multiset(b);
      }
    }
  }

  lemma PagesOfAppend(ps: seq<PagePreview>, pv: PagePreview)
    ensures Pages(ps + [pv]) == Pages(ps) + {pv.page}
  {
    assert forall x :: x in ps + [pv] <==> x in ps || x == pv;
  }

  /** Inserting adds exactly the new entry to the list's contents. */
  lemma {:induction false} InsertSortedMultiset(ps: seq<PagePreview>, pv: PagePreview)
    ensures multiset(InsertSorted(ps, pv)) == multiset(ps + [pv])
  {
    if ps != [] && pv.page >= ps[0].page {
      InsertSortedMultiset(ps[1..], pv);
      assert ps + [pv] == [ps[0]] + (ps[1..] + [pv]);
    }
  }

  lemma SortedCons(x: PagePreview, t: seq<PagePreview>)
    requires Sorted(t) && forall k :: 0 <= k < |t| ==> x.page < t[k].page
    ensures Sorted([x] + t)
  {
    var r := [x] + t;
    forall i, j | 0 <= i < j < |r| ensures r[i].page < r[j].page {
      assert r[j] == t[j - 1];
      if i > 0 {
        assert r[i] == t[i - 1];
      }
    }
  }

  /** Inserting an unlisted page into a sorted list keeps it sorted. */
  lemma {:induction false} InsertSortedSorted(ps: seq<PagePreview>, pv: PagePreview)
    requires Sorted(ps) && pv.page !in Pages(ps)
    ensures Sorted(InsertSorted(ps, pv))
  {
    if ps == [] {
    } else if pv.page < ps[0].page {
      SortedCons(pv, ps);
    } else {
      var tail := ps[1..];
      assert pv.page !in Pages(tail) by {
        assert forall x :: x in tail ==> x in ps;
      }
      InsertSortedSorted(tail, pv);
      var rt := InsertSorted(tail, pv);
      assert ps[0].page < pv.page by {
        assert ps[0] in ps;
      }
      forall k | 0 <= k < |rt| ensures ps[0].page < rt[k].page {
        assert rt[k] in multiset(tail + [pv]) by {
          InsertSortedMultiset(tail, pv);
        }
        if rt[k] != pv {
          var m :| 0 <= m < |tail| && tail[m] == rt[k];
          assert ps[m + 1] == rt[k];
        }
      }
      SortedCons(ps[0], rt);
    }
  }

  /** Replacing the entry for a listed page keeps the list sorted, keeps
      its pages, and changes the picture of that page only. */
  lemma ReplacePreviewFacts(ps: seq<PagePreview>, k: nat, pv: PagePreview)
    requires Sorted(ps) && k < |ps| && ps[k].page == pv.page
    ensures var r := ps[k := pv];
      && Sorted(r)
      && Pages(r) == Pages(ps)
      && (forall q :: PreviewOf(r, q) == if q == pv.page then Some(pv.image) else PreviewOf(ps, q))
  {
    var r := ps[k := pv];
    assert Sorted(r) by {
      forall i, j | 0 <= i < j < |r| ensures r[i].page < r[j].page {
        assert r[i].page == ps[i].page && r[j].page == ps[j].page;
      }
    }
    assert Pages(r) == Pages(ps) by {
      forall q | q in Pages(r) ensures q in Pages(ps) {
        var x :| x in r && x.page == q;
        var m :| 0 <= m < |r| && r[m] == x;
        assert ps[m].page == q;
      }
      forall q | q in Pages(ps) ensures q in Pages(r) {
        var x :| x in ps && x.page == q;
        var m :| 0 <= m < |ps| && ps[m] == x;
        assert r[m].page == q;
      }
    }
    forall q ensures PreviewOf(r, q) == if q == pv.page then Some(pv.image) else PreviewOf(ps, q) {
      if q == pv.page {
        FindPageAt(r, k);
      } else {
        FindPageNone(ps, q);
        FindPageNone(r, q);
        match FindPage(ps, q)
        case None =>
        case Some(m) =>
          FindPageAt(ps, m);
          FindPageAt(r, m);
      }
    }
  }

  /** Adding the entry for an unlisted page keeps every other page's
      picture. */
  lemma InsertSortedLookup(ps: seq<PagePreview>, pv: PagePreview, q: nat)
    requires Sorted(ps) && pv.page !in Pages(ps)
    ensures PreviewOf(InsertSorted(ps, pv), q) == if q == pv.page then Some(pv.image) else PreviewOf(ps, q)
  {
    var r := InsertSorted(ps, pv);
    InsertSortedSorted(ps, pv);
    InsertSortedMultiset(ps, pv);
    assert pv in multiset(r) by {
      assert pv in multiset(ps + [pv]);
    }
    PreviewOfSpec(r, q, pv.image);
    if q != pv.page {
      PagesOfMultiset(r, ps + [pv]);
      PagesOfAppend(ps, pv);
      match PreviewOf(ps, q)
      case None =>
        PreviewOfSpec(ps, q, pv.image);
      case Some(img) =>
        PreviewOfSpec(ps, q, img);
        assert PagePreview(q, img) in multiset(ps + [pv]);
        PreviewOfSpec(r, q, img);
    }
  }

  /** The new preview list is sorted with one entry per page, its pages are
      the old ones plus the new page, the new page shows the new picture,
      every other page keeps its picture, and a new page adds exactly the
      new entry to the list's contents. */
  lemma InsertPreviewFacts(ps: seq<PagePreview>, pv: PagePreview)
    requires Sorted(ps)
    ensures var r := InsertPreview(ps, pv);
      && Sorted(r)
      && Pages(r) == Pages(ps) + {pv.page}
      && (pv.page !in Pages(ps) ==> multiset(r) == multiset(ps + [pv]))
      && (forall q :: PreviewOf(r, q) == if q == pv.page then Some(pv.image) else PreviewOf(ps, q))
  {
    FindPageNone(ps, pv.page);
    match FindPage(ps, pv.page)
    case Some(k) =>
      ReplacePreviewFacts(ps, k, pv);
    case None =>
      InsertSortedSorted(ps, pv);
      InsertSortedMultiset(ps, pv);
      PagesOfMultiset(InsertSorted(ps, pv), ps + [pv]);
      PagesOfAppend(ps, pv);
      forall q ensures PreviewOf(InsertSorted(ps, pv), q) == if q == pv.page then Some(pv.image) else PreviewOf(ps, q) {
        InsertSortedLookup(ps, pv, q);
      }
  }

  // ----------------------------------------------------------- the queue

  predicate NoDuplicates(q: seq<nat>) {
    forall i, j :: 0 <= i < j < |q| ==> q[i] != q[j]
  }

  /** A queue head the worker passes over without rendering: the page is
      no longer visible or already loaded, or there is no file to render
      from (`loadPagePreview` then returns at once). */
  predicate Stale(p: nat, visible: set<nat>, loaded: set<nat>, hasFile: bool) {
    p !in visible || p in loaded || !hasFile
  }

  /** The queue after the worker has shifted every stale head. */
  function SkipStale(q: seq<nat>, visible: set<nat>, loaded: set<nat>, hasFile: bool): seq<nat> {
    if q == [] then []
    else if Stale(q[0], visible, loaded, hasFile) then SkipStale(q[1..], visible, loaded, hasFile)
    else q
  }

  /** Skipping drops a prefix of stale pages and stops at the first page
      that needs a render. */
  lemma {:induction false} SkipStaleFacts(q: seq<nat>, visible: set<nat>, loaded: set<nat>, hasFile: bool)
    ensures var r := SkipStale(q, visible, loaded, hasFile);
      && |r| <= |q| && r == q[|q| - |r|..]
      && (forall i :: 0 <= i < |q| - |r| ==> Stale(q[i], visible, loaded, hasFile))
      && (r != [] ==> !Stale(r[0], visible, loaded, hasFile))
  {
    if q != [] && Stale(q[0], visible, loaded, hasFile) {
      SkipStaleFacts(q[1..], visible, loaded, hasFile);
      var r := SkipStale(q, visible, loaded, hasFile);
      assert q[1..][|q| - 1 - |r|..] == q[|q| - |r|..];
      forall i | 0 <= i < |q| - |r| ensures Stale(q[i], visible, loaded, hasFile) {
        if i > 0 { assert q[1..][i - 1] == q[i]; }
      }
    }
  }

  /** With no file to render from, the worker empties the queue. */
  lemma {:induction false} SkipStaleNoFile(q: seq<nat>, visible: set<nat>, loaded: set<nat>)
    ensures SkipStale(q, visible, loaded, false) == []
  {
    if q != [] {
      SkipStaleNoFile(q[1..], visible, loaded);
    }
  }

  lemma SuffixNoDuplicates(q: seq<nat>, k: nat)
    requires NoDuplicates(q) && k <= |q|
    ensures NoDuplicates(q[k..])
  {
    forall i, j | 0 <= i < j < |q[k..]| ensures q[k..][i] != q[k..][j] {
      assert q[k..][i] == q[k + i] && q[k..][j] == q[k + j];
    }
  }

  // ------------------------------------------------------- the scheduler

  /** The preview state of the converter page. */
  class PreviewScheduler {
    /** A file and its bytes are selected. */
    var hasFile: bool
    /** The page count of the loaded document, when there is one. */
    var pageCount: Option<nat>
    var visible: set<nat>
    var loaded: set<nat>
    var queue: seq<nat>
    /** `processingQueueRef`: a worker is running. */
    var processing: bool
    /** The page whose render the worker is waiting for. */
    var inFlight: Option<nat>
    var previews: seq<PagePreview>
    var isLoadingPreviews: bool

    function InFlightSet(): set<nat>
      reads this
    {
      if inFlight.Some? then {inFlight.value} else {}
    }

    /** Loaded pages are those with a preview plus the one being rendered;
        previews are sorted with one per page; the queue has no duplicates;
        the worker runs exactly while it waits for a render, and the page it
        renders is the queue head, so it cannot be queued again. */
    predicate Valid()
      reads this
    {
      && Sorted(previews)
      && NoDuplicates(queue)
      && loaded == Pages(previews) + InFlightSet()
      && (inFlight.Some? ==> inFlight.value !in Pages(previews) && |queue| > 0 && queue[0] == inFlight.value)
      && (processing <==> inFlight.Some?)
      && (!processing ==> queue == [])
    }

    constructor(hasFile: bool, pageCount: Option<nat>)
      ensures Valid()
      ensures this.hasFile == hasFile && this.pageCount == pageCount
      ensures visible == {} && loaded == {} && queue == [] && !processing && inFlight.None?
      ensures previews == [] && !isLoadingPreviews
    {
      this.hasFile := hasFile;
      this.pageCount := pageCount;
      visible := {};
      loaded := {};
      queue := [];
      processing := false;
      inFlight := None;
      previews := [];
      isLoadingPreviews := false;
    }

    /** `handleVisibilityChange(page, isVisible)`: the visible set follows
        the event; a visible page that is neither loaded nor queued joins the
        queue and the worker is started, which renders it at once when no
        worker was running. */
    method VisibilityChange(page: nat, isVisible: bool)
      requires Valid()
      modifies this`visible, this`queue, this`processing, this`inFlight, this`loaded
      ensures Valid()
      ensures visible == if isVisible then old(visible) + {page} else old(visible) - {page}
      ensures !(isVisible && page !in old(loaded) && page !in old(queue)) ==>
        queue == old(queue) && loaded == old(loaded) && inFlight == old(inFlight) && processing == old(processing)
      ensures isVisible && page !in old(loaded) && page !in old(queue) && old(processing) ==>
        queue == old(queue) + [page] && loaded == old(loaded) && inFlight == old(inFlight) && processing
      ensures isVisible && page !in old(loaded) && page !in old(queue) && !old(processing) ==>
        if hasFile then queue == [page] && inFlight == Some(page) && loaded == old(loaded) + {page} && processing
        else queue == [] && inFlight.None? && loaded == old(loaded) && !processing
    {
      if isVisible {
        visible := visible + {page};
      } else {
        visible := visible - {page};
      }
      if isVisible && page !in loaded {
        if page !in queue {
          assert NoDuplicates(queue + [page]) by {
            forall i, j | 0 <= i < j < |queue| + 1 ensures (queue + [page])[i] != (queue + [page])[j] {
              if j == |queue| { assert (queue + [page])[i] == queue[i]; }
            }
          }
          queue := queue + [page];
          ProcessQueue();
        }
      }
    }

    /** `processQueue()`: does nothing while a worker runs; otherwise starts
        one, which shifts stale heads until a page needs a render. */
    method ProcessQueue()
      requires Sorted(previews) && NoDuplicates(queue)
      requires loaded == Pages(previews) + InFlightSet()
      requires inFlight.Some? ==> inFlight.value !in Pages(previews) && |queue| > 0 && queue[0] == inFlight.value
      requires processing <==> inFlight.Some?
      modifies this`queue, this`processing, this`inFlight, this`loaded
      ensures Valid()
      ensures old(processing) ==> queue == old(queue) && loaded == old(loaded) && inFlight == old(inFlight) && processing
      ensures !old(processing) ==>
        && queue == SkipStale(old(queue), visible, old(loaded), hasFile)
        && inFlight == (if queue == [] then None else Some(queue[0]))
        && loaded == (if queue == [] then old(loaded) else old(loaded) + {queue[0]})
    {
      if processing {
        return;
      }
      processing := true;
      Drain();
    }

    /** The `while` loop of `processQueue`: shift stale heads; at the first
        page that needs a render, mark it loaded and wait for the render;
        with the queue empty, clear `processing`. */
    method Drain()
      requires Sorted(previews) && NoDuplicates(queue)
      requires loaded == Pages(previews) && inFlight.None? && processing
      modifies this`queue, this`processing, this`inFlight, this`loaded
      ensures Valid()
      ensures queue == SkipStale(old(queue), visible, old(loaded), hasFile)
      ensures inFlight == (if queue == [] then None else Some(queue[0]))
      ensures loaded == (if queue == [] then old(loaded) else old(loaded) + {queue[0]})
    {
      ghost var q0 := queue;
      SkipStaleFacts(q0, visible, loaded, hasFile);
      while |queue| > 0
        invariant NoDuplicates(queue)
        invariant SkipStale(queue, visible, loaded, hasFile) == SkipStale(q0, visible, loaded, hasFile)
        invariant loaded == old(loaded) && inFlight.None? && processing
        decreases |queue|
      {
        var page := queue[0];
        if page !in visible || page in loaded {
          SuffixNoDuplicates(queue, 1);
          queue := queue[1..];
          continue;
        }
        if !hasFile {
          SuffixNoDuplicates(queue, 1);
          queue := queue[1..];
          continue;
        }
        loaded := loaded + {page};
        inFlight := Some(page);
        return;
      }
      processing := false;
    }

    /** The awaited render of the worker's page finishes: a picture is
        stored in the preview list, a failure unmarks the page; the page is
        shifted off the queue and the worker carries on. */
    method RenderComplete(outcome: Option<Bytes>)
      requires Valid() && processing
      modifies this`previews, this`loaded, this`queue, this`processing, this`inFlight
      ensures Valid()
      ensures var p := old(inFlight).value;
        && previews == (if outcome.Some? then InsertPreview(old(previews), PagePreview(p, outcome.value)) else old(previews))
        && var loaded1 := if outcome.Some? then old(loaded) else old(loaded) - {p};
           && queue == SkipStale(old(queue)[1..], visible, loaded1, hasFile)
           && inFlight == (if queue == [] then None else Some(queue[0]))
           && loaded == (if queue == [] then loaded1 else loaded1 + {queue[0]})
    {
      var page := inFlight.value;
      FinishRender(page, outcome);
      SuffixNoDuplicates(queue, 1);
      queue := queue[1..];
      inFlight := None;
      Drain();
    }

    /** The part of `loadPagePreview` after the render: store the picture
        (replacing an older one for the page), or unmark the page. */
    method FinishRender(page: nat, outcome: Option<Bytes>)
      requires Sorted(previews) && page in loaded && page !in Pages(previews)
      modifies this`previews, this`loaded
      ensures Sorted(previews)
      ensures previews == if outcome.Some? then InsertPreview(old(previews), PagePreview(page, outcome.value)) else old(previews)
      ensures loaded == if outcome.Some? then old(loaded) else old(loaded) - {page}
      ensures Pages(previews) == if outcome.Some? then Pages(old(previews)) + {page} else Pages(old(previews))
    {
      match outcome
      case Some(image) =>
        InsertPreviewFacts(previews, PagePreview(page, image));
        previews := InsertPreview(previews, PagePreview(page, image));
      case None =>
        loaded := loaded - {page};
    }

    /** `loadPagePreview(page)` run to completion with the render's outcome
        given: nothing without a file or for a loaded page; otherwise the
        page is marked loaded and then keeps that mark exactly when the
        render succeeded. */
    method LoadPage(page: nat, outcome: Option<Bytes>)
      requires Valid()
      modifies this`previews, this`loaded
      ensures Valid()
      ensures !hasFile || page in old(loaded) ==> previews == old(previews) && loaded == old(loaded)
      ensures hasFile && page !in old(loaded) ==>
        && previews == (if outcome.Some? then InsertPreview(old(previews), PagePreview(page, outcome.value)) else old(previews))
        && loaded == (if outcome.Some? then old(loaded) + {page} else old(loaded))
    {
      if !hasFile {
        return;
      }
      if page in loaded {
        return;
      }
      loaded := loaded + {page};
      FinishRender(page, outcome);
    }

    /** `loadAllPages()` with the render of page i given as `render(i)`:
        every page of the document that was not loaded when the call began
        is loaded in page order, and ends loaded with its picture exactly
        when its render succeeded; every other page is left alone. */
    method LoadAll(render: nat -> Option<Bytes>)
      requires Valid()
      modifies this`previews, this`loaded, this`isLoadingPreviews
      ensures Valid()
      ensures pageCount.None? ==> previews == old(previews) && loaded == old(loaded) && isLoadingPreviews == old(isLoadingPreviews)
      ensures pageCount.Some? ==> !isLoadingPreviews
      ensures forall p: nat :: p in loaded <==> p in old(loaded) || Rendered(p, pageCount, old(loaded), hasFile, render)
      ensures forall p: nat :: PreviewOf(previews, p)
                               == (if Rendered(p, pageCount, old(loaded), hasFile, render) then render(p) else PreviewOf(old(previews), p))
    {
      if pageCount.None? {
        return;
      }
      isLoadingPreviews := true;
      var snapshot := loaded;
      ghost var before := previews;
      for i := 0 to pageCount.value
        invariant Valid()
        invariant forall p: nat :: p in loaded <==> p in snapshot || (p < i && Rendered(p, pageCount, snapshot, hasFile, render))
        invariant forall p: nat :: PreviewOf(previews, p)
                                 == (if p < i && Rendered(p, pageCount, snapshot, hasFile, render) then render(p) else PreviewOf(before, p))
      {
        if i !in snapshot {
          ghost var ps, ls := previews, loaded;
          LoadPage(i, render(i));
          LoadStepPreviews(ps, previews, before, i, pageCount, snapshot, hasFile, render);
          LoadStepLoaded(ls, loaded, i, pageCount, snapshot, hasFile, render);
        }
      }
      isLoadingPreviews := false;
    }
  }

  /** One page of `loadAllPages` extends the pictures it has stored by
      that page's picture when its render succeeded. */
  lemma LoadStepPreviews(ps: seq<PagePreview>, ps': seq<PagePreview>, before: seq<PagePreview>, i: nat,
                         pageCount: Option<nat>, snapshot: set<nat>, hasFile: bool, render: nat -> Option<Bytes>)
    requires Sorted(ps)
    requires forall p: nat :: PreviewOf(ps, p)
                              == (if p < i && Rendered(p, pageCount, snapshot, hasFile, render) then render(p) else PreviewOf(before, p))
    requires ps' == if Rendered(i, pageCount, snapshot, hasFile, render) then InsertPreview(ps, PagePreview(i, render(i).value)) else ps
    ensures forall p: nat :: PreviewOf(ps', p)
                             == (if p < i + 1 && Rendered(p, pageCount, snapshot, hasFile, render) then render(p) else PreviewOf(before, p))
  {
    if Rendered(i, pageCount, snapshot, hasFile, render) {
      InsertPreviewFacts(ps, PagePreview(i, render(i).value));
    }
  }

  /** One page of `loadAllPages` marks that page loaded when its render
      succeeded. */
  lemma LoadStepLoaded(ls: set<nat>, ls': set<nat>, i: nat,
                       pageCount: Option<nat>, snapshot: set<nat>, hasFile: bool, render: nat -> Option<Bytes>)
    requires i !in snapshot && pageCount.Some? && i < pageCount.value
    requires forall p: nat :: p in ls <==> p in snapshot || (p < i && Rendered(p, pageCount, snapshot, hasFile, render))
    requires ls' == if Rendered(i, pageCount, snapshot, hasFile, render) then ls + {i} else ls
    ensures forall p: nat :: p in ls' <==> p in snapshot || (p < i + 1 && Rendered(p, pageCount, snapshot, hasFile, render))
  {
  }

  /** A page `loadAllPages` renders successfully: a page of the document,
      not loaded when the call began, with a file to render from, whose
      render succeeds. */
  predicate Rendered(p: nat, pageCount: Option<nat>, before: set<nat>, hasFile: bool, render: nat -> Option<Bytes>) {
    pageCount.Some? && p < pageCount.value && p !in before && hasFile && render(p).Some?
  }
}
