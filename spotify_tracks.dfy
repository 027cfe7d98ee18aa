/** The remote inventory: the labels of a playlist's tracks, read page by page
    (`get_spotify_tracks`). The pages are given; fetching them is left out. */
module SpotifyTracks {
  import opened Wrappers
  import opened Labels

  /** A track of the playlist: its name and the names of its artists, first listed first. */
  datatype Track = Track(name: string, artists: seq<string>)

  /** A playlist item; its track is None for an unavailable or removed entry. */
  datatype Item = Item(track: Option<Track>)

  /** A page of playlist items, and whether it carries a link to a next page. */
  datatype Page = Page(items: seq<Item>, hasNext: bool)

  /** A track that lists no artist: reading its first artist raises, and the run stops. */
  datatype FetchError = NoArtist(track: Track)

  /** The number of pages the cursor visits when it stands on page `i`: it
      moves on while the page links to a next one that the sequence holds. */
  function VisitedFrom(pages: seq<Page>, i: nat): (n: nat)
    requires i < |pages|
    ensures i < n <= |pages|
    decreases |pages| - i
  {
    if pages[i].hasNext && i + 1 < |pages| then VisitedFrom(pages, i + 1) else i + 1
  }

  /** The pages the cursor visits: the first one, then each following page as
      long as the page before it links to a next one. */
  function Reached(pages: seq<Page>): (r: seq<Page>)
    ensures |r| <= |pages| && r == pages[..|r|]
  {
    if pages == [] then [] else pages[..VisitedFrom(pages, 0)]
  }

  /** Every visited page but the last links onward, and the cursor stops
      before the end only at a page without a link. */
  lemma {:induction false} VisitedFromStops(pages: seq<Page>, i: nat)
    requires i < |pages|
    ensures forall k :: i <= k < VisitedFrom(pages, i) - 1 ==> pages[k].hasNext
    ensures VisitedFrom(pages, i) < |pages| ==> !pages[VisitedFrom(pages, i) - 1].hasNext
    decreases |pages| - i
  {
    if pages[i].hasNext && i + 1 < |pages| {
      VisitedFromStops(pages, i + 1);
    }
  }

  /** The visited pages are the pages up to and including the first one
      without a link to a next page; all of them when there is none. */
  lemma ReachedUpToFirstLast(pages: seq<Page>)
    ensures pages != [] ==> Reached(pages) != []
    ensures forall k :: 0 <= k < |Reached(pages)| - 1 ==> pages[k].hasNext
    ensures |Reached(pages)| < |pages| ==> !pages[|Reached(pages)| - 1].hasNext
  {
    if pages != [] {
      VisitedFromStops(pages, 0);
    }
  }

  /** When every page but the last links to a next one, all pages are visited. */
  lemma ReachedAll(pages: seq<Page>)
    requires forall k :: 0 <= k < |pages| - 1 ==> pages[k].hasNext
    ensures Reached(pages) == pages
  {
    ReachedUpToFirstLast(pages);
    assert pages[..|pages|] == pages;
  }

  /** The items of the pages, page after page. */
  function Items(pages: seq<Page>): seq<Item>
  {
    if pages == [] then [] else Items(pages[..|pages| - 1]) + pages[|pages| - 1].items
  }

  /** An item is collected exactly when some page lists it. */
  lemma {:induction false} ItemsMembers(pages: seq<Page>)
    ensures forall it :: it in Items(pages) <==> exists k :: 0 <= k < |pages| && it in pages[k].items
  {
    if pages != [] {
      var init := pages[..|pages| - 1];
      ItemsMembers(init);
      assert forall k :: 0 <= k < |init| ==> init[k] == pages[k];
    }
  }

  /** The items of two runs of pages are those of the first run, then those of the second. */
  lemma {:induction false} ItemsAppend(a: seq<Page>, b: seq<Page>)
    ensures Items(a + b) == Items(a) + Items(b)
    decreases |b|
  {
    if b == [] {
      assert a + b == a;
    } else {
      assert (a + b)[..|a + b| - 1] == a + b[..|b| - 1];
      ItemsAppend(a, b[..|b| - 1]);
    }
  }

  /** Every present track lists at least one artist, so every label can be built. */
  predicate Labelable(items: seq<Item>)
  {
    forall i :: 0 <= i < |items| && items[i].track.Some? ==> items[i].track.value.artists != []
  }

  /** `f"{artist} - {name}"` with the track's first artist. */
  function TrackLabel(t: Track): (r: string)
    requires t.artists != []
    ensures |r| == |t.artists[0]| + |Separator| + |t.name|
    ensures r[..|t.artists[0]|] == t.artists[0]
    ensures r[|t.artists[0]|..|t.artists[0]| + |Separator|] == Separator
    ensures r[|t.artists[0]| + |Separator|..] == t.name
  {
    Label(t.artists[0], t.name)
  }

  /** The present tracks of the items, in order; null entries are dropped. */
  function Present(items: seq<Item>): (r: seq<Track>)
    ensures |r| <= |items|
    ensures forall t :: t in r <==> Item(Some(t)) in items
    ensures Labelable(items) ==> forall k :: 0 <= k < |r| ==> r[k].artists != []
  {
    if items == [] then []
    else
      var init := items[..|items| - 1];
      var last := items[|items| - 1];
      assert forall i :: 0 <= i < |init| ==> init[i] == items[i];
      assert items == init + [last];
      Present(init) + (if last.track.Some? then [last.track.value] else [])
  }

  /** The labels of the present tracks of the items, in order. */
  function ItemLabels(items: seq<Item>): (r: seq<string>)
    requires Labelable(items)
    ensures |r| <= |items|
  {
    if items == [] then []
    else
      var last := items[|items| - 1];
      ItemLabels(items[..|items| - 1]) + (if last.track.Some? then [TrackLabel(last.track.value)] else [])
  }

  /** One label per present track, the k-th label being that of the k-th present track. */
  lemma {:induction false} OneLabelPerPresentTrack(items: seq<Item>)
    requires Labelable(items)
    ensures |ItemLabels(items)| == |Present(items)|
    ensures forall k :: 0 <= k < |Present(items)| ==> ItemLabels(items)[k] == TrackLabel(Present(items)[k])
  {
    if items != [] {
      OneLabelPerPresentTrack(items[..|items| - 1]);
    }
  }

  lemma {:induction false} ItemLabelsAppend(a: seq<Item>, b: seq<Item>)
    requires Labelable(a + b)
    ensures Labelable(a) && Labelable(b)
    ensures ItemLabels(a + b) == ItemLabels(a) + ItemLabels(b)
    decreases |b|
  {
    assert forall i :: 0 <= i < |a| ==> a[i] == (a + b)[i];
    assert forall i :: 0 <= i < |b| ==> b[i] == (a + b)[|a| + i];
    if b == [] {
      assert a + b == a;
    } else {
      assert (a + b)[..|a + b| - 1] == a + b[..|b| - 1];
      ItemLabelsAppend(a, b[..|b| - 1]);
    }
  }

  /** A null entry anywhere contributes no label and does not stop the items after it. */
  lemma NullItemSkipped(a: seq<Item>, b: seq<Item>)
    requires Labelable(a + b)
    ensures Labelable(a + [Item(None)] + b)
    ensures ItemLabels(a + [Item(None)] + b) == ItemLabels(a + b)
  {
    var withNull := a + [Item(None)] + b;
    assert forall i :: 0 <= i < |a| ==> withNull[i] == (a + b)[i];
    assert forall i :: |a| < i < |withNull| ==> withNull[i] == (a + b)[i - 1];
    ItemLabelsAppend(a, b);
    assert withNull == (a + [Item(None)]) + b;
    ItemLabelsAppend(a + [Item(None)], b);
    assert (a + [Item(None)])[..|a|] == a;
  }

  /** A present track without artists on a visited page is among the items
      of the visited pages, which therefore cannot all be labelled. */
  lemma BadItemReached(pages: seq<Page>, n: nat, i: nat, j: nat)
    requires i < n <= |pages| && j < |pages[i].items|
    ensures |Items(pages[..i])| + j < |Items(pages[..n])|
    ensures Items(pages[..n])[|Items(pages[..i])| + j] == pages[i].items[j]
  {
    assert pages[..n] == pages[..i + 1] + pages[i + 1..n];
    ItemsAppend(pages[..i + 1], pages[i + 1..n]);
    ItemsStep(pages, i);
  }

  /** Reading one more item: a present track with an artist adds its label, a null entry adds nothing. */
  lemma ReadStep(done: seq<Item>, items: seq<Item>, j: nat)
    requires j < |items| && Labelable(done + items[..j])
    requires items[j].track.Some? ==> items[j].track.value.artists != []
    ensures Labelable(done + items[..j + 1])
    ensures ItemLabels(done + items[..j + 1]) == ItemLabels(done + items[..j])
      + (if items[j].track.Some? then [TrackLabel(items[j].track.value)] else [])
  {
    var next := done + items[..j + 1];
    assert next == (done + items[..j]) + [items[j]];
    assert next[..|next| - 1] == done + items[..j];
  }

  /** Reading the items of page `i` after those before it. */
  lemma ItemsStep(pages: seq<Page>, i: nat)
    requires i < |pages|
    ensures Items(pages[..i + 1]) == Items(pages[..i]) + pages[i].items
  {
    assert pages[..i + 1][..i] == pages[..i];
  }

  /** `get_spotify_tracks`: follows the page cursor from the first page and
      appends "{first artist} - {name}" for every present track, in order. */
  method GetSpotifyTracks(pages: seq<Page>) returns (r: Result<seq<string>, FetchError>)
    ensures r.Success? <==> Labelable(Items(Reached(pages)))
    ensures r.Success? ==> r.value == ItemLabels(Items(Reached(pages)))
    ensures r.Failure? ==> r.error.track.artists == [] && Item(Some(r.error.track)) in Items(Reached(pages))
  {
    var tracks: seq<string> := [];
    var i := 0;
    var more := pages != [];
    while more
      invariant 0 <= i <= |pages|
      invariant more ==> i < |pages| && VisitedFrom(pages, i) == |Reached(pages)|
      invariant !more ==> i == |Reached(pages)|
      invariant Labelable(Items(pages[..i]))
      invariant tracks == ItemLabels(Items(pages[..i]))
      decreases |pages| - i
    {
      var page := pages[i];
      ghost var done := Items(pages[..i]);
      var j := 0;
      assert done + page.items[..0] == done;
      while j < |page.items|
        invariant 0 <= j <= |page.items|
        invariant Labelable(done + page.items[..j])
        invariant tracks == ItemLabels(done + page.items[..j])
      {
        var track := page.items[j].track;
        if track.Some? {
          if track.value.artists == [] {
            BadItemReached(pages, |Reached(pages)|, i, j);
            assert Items(Reached(pages))[|done| + j] == page.items[j];
            return Failure(NoArtist(track.value));
          }
          tracks := tracks + [TrackLabel(track.value)];
        }
        ReadStep(done, page.items, j);
        j := j + 1;
      }
      assert page.items[..j] == page.items;
      ItemsStep(pages, i);
      more := page.hasNext && i + 1 < |pages|;
      i := i + 1;
    }
    return Success(tracks);
  }
}
