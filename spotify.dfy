/**
 * Playlist assembly in `GetPlaylistTracks` (server/spotify.go): the loop that follows the
 * `next` links of the paginated tracks endpoint and concatenates the items of every page,
 * and the filter that keeps the first track of each album. The HTTP exchange is replaced by
 * the sequence of answers the server gives to the successive requests; JSON decoding is
 * replaced by values that are either decoded or marked as undecodable.
 */
module PlaylistAssembly {
  import opened Wrappers
  import opened FirstWins
  import opened ImageColors

  /** The `album` object of a track. */
  datatype Album = Album(id: string, name: string, url: string, images: seq<SpotifyImage>)

  /** `TrackItem`. */
  datatype TrackItem = TrackItem(id: string, name: string, album: Album)

  /** One raw element of a page's `items`: it decodes into a `{"track": ...}` object or it does not. */
  datatype RawItem = TrackJson(track: TrackItem) | Malformed

  /**
   * The raw `items` field of a page: a JSON array of elements, or anything else, which the
   * loop then takes as a single element.
   */
  datatype PageItems = ItemArray(elements: seq<RawItem>) | NotArray(raw: RawItem)

  /** `PaginatedResponse`. */
  datatype Page = Page(next: string, items: PageItems, total: int)

  /**
   * The outcome of one request: no response at all (the request could not be built or
   * sent), or a status code with a body that decodes into a page or does not (an unreadable
   * body counts as undecodable).
   */
  datatype Response = NoResponse | Reply(status: int, body: Option<Page>)

  /** Why the whole call fails. */
  datatype FetchError = RequestFailed | BadStatus(code: int) | BadBody | BadItem

  /** `CombinedTracksResponse`. */
  datatype CombinedTracks = CombinedTracks(items: seq<RawItem>, total: int)

  const ApiBase: string := "https://api.spotify.com/v1"

  /** The first URL the loop requests. */
  function TracksUrl(playlistId: string): (url: string)
    ensures ApiBase <= url
  {
    ApiBase + "/playlists/" + playlistId + "/tracks"
  }

  /** A 200 answer whose body decodes into a page. */
  predicate Delivered(r: Response)
  {
    r.Reply? && r.status == 200 && r.body.Some?
  }

  /** A delivered page that links to another one: the loop goes on after it. */
  predicate HasNext(r: Response)
  {
    Delivered(r) && r.body.value.next != ""
  }

  /** The error a response that is not delivered makes the call fail with. */
  function ErrorOf(r: Response): (e: FetchError)
    requires !Delivered(r)
    ensures e != BadItem
    ensures e.BadStatus? <==> r.Reply? && r.status != 200
  {
    match r
    case NoResponse => RequestFailed
    case Reply(status, _) => if status != 200 then BadStatus(status) else BadBody
  }

  /** The index of the first answer, from `from` on, after which the loop does not go on. */
  function FirstStop(rs: seq<Response>, from: nat): (k: nat)
    requires from <= |rs| && exists k :: from <= k < |rs| && !HasNext(rs[k])
    ensures from <= k < |rs| && !HasNext(rs[k])
    ensures forall j :: from <= j < k ==> HasNext(rs[j])
    decreases |rs| - from
  {
    if !HasNext(rs[from]) then from else FirstStop(rs, from + 1)
  }

  /** The pages of the first `n` answers, all of them delivered. */
  function Pages(rs: seq<Response>, n: nat): (pages: seq<Page>)
    requires n <= |rs| && forall j :: 0 <= j < n ==> Delivered(rs[j])
    ensures |pages| == n
    ensures forall j :: 0 <= j < n ==> Delivered(rs[j]) && pages[j] == rs[j].body.value
  {
    seq(n, j requires 0 <= j < n && Delivered(rs[j]) => rs[j].body.value)
  }

  /** The elements a page contributes. */
  function ElementsOf(p: Page): (s: seq<RawItem>)
    ensures p.items.NotArray? ==> s == [p.items.raw]
  {
    match p.items
    case ItemArray(elements) => elements
    case NotArray(raw) => [raw]
  }

  /** The elements of all pages, page after page. */
  function AllItems(pages: seq<Page>): seq<RawItem>
  {
    if pages == [] then [] else AllItems(pages[..|pages| - 1]) + ElementsOf(pages[|pages| - 1])
  }

  /** The total the combined response carries after the given pages. */
  function CombinedTotal(pages: seq<Page>): int
  {
    if pages == [] then 0
    else
      var before := CombinedTotal(pages[..|pages| - 1]);
      if before == 0 then pages[|pages| - 1].total else before
  }

  /** Items are concatenated in page order: the items of two runs of pages are those of each. */
  lemma {:induction false} AllItemsAppend(p: seq<Page>, q: seq<Page>)
    ensures AllItems(p + q) == AllItems(p) + AllItems(q)
    decreases |q|
  {
    if q != [] {
      var n := |q| - 1;
      assert (p + q)[..|p + q| - 1] == p + q[..n];
      AllItemsAppend(p, q[..n]);
    } else {
      assert p + q == p;
    }
  }

  /**
   * `Total` is the total of the first page whose total is not zero, or zero when there is no
   * such page.
   */
  lemma {:induction false} CombinedTotalIsFirstNonZero(pages: seq<Page>)
    ensures CombinedTotal(pages) == 0 <==> forall k :: 0 <= k < |pages| ==> pages[k].total == 0
    ensures CombinedTotal(pages) != 0 ==>
      exists k :: 0 <= k < |pages| && CombinedTotal(pages) == pages[k].total && forall j :: 0 <= j < k ==> pages[j].total == 0
  {
    if pages != [] {
      var n := |pages| - 1;
      var pre := pages[..n];
      CombinedTotalIsFirstNonZero(pre);
      assert forall j :: 0 <= j < n ==> pre[j] == pages[j];
      if CombinedTotal(pre) != 0 {
        var k :| 0 <= k < n && CombinedTotal(pre) == pre[k].total && forall j :: 0 <= j < k ==> pre[j].total == 0;
        assert CombinedTotal(pages) == pages[k].total;
      }
    }
  }

  /**
   * The `for nextURL != ""` loop over the answers `rs` to its successive requests, which
   * must include one after which the loop does not go on. It returns the URLs requested:
   * the tracks endpoint first, then the `next` link of each page. It stops at the first answer
   * that is not a decodable 200 page, failing with that answer's error, or after the first
   * page whose `next` is empty, returning the elements of all pages in page order and the
   * first non-zero total.
   */
  method CollectPages(playlistId: string, rs: seq<Response>)
    returns (result: Result<CombinedTracks, FetchError>, requested: seq<string>)
    requires exists k :: 0 <= k < |rs| && !HasNext(rs[k])
    ensures var n := FirstStop(rs, 0);
      && |requested| == n + 1
      && requested[0] == TracksUrl(playlistId)
      && (forall j :: 0 <= j < n ==> requested[j + 1] == rs[j].body.value.next)
      && (result.Ok? <==> Delivered(rs[n]))
      && (result.Err? ==> result.error == ErrorOf(rs[n]))
      && (result.Ok? ==>
            var pages := Pages(rs, n + 1);
            result.value == CombinedTracks(AllItems(pages), CombinedTotal(pages)))
  {
    ghost var n := FirstStop(rs, 0);
    var nextUrl := TracksUrl(playlistId);
    var combined := CombinedTracks([], 0);
    requested := [];
    var k := 0;
    while nextUrl != ""
      invariant 0 <= k <= n + 1 && |requested| == k
      invariant k > 0 ==> Delivered(rs[k - 1]) && nextUrl == rs[k - 1].body.value.next
      invariant k == 0 ==> nextUrl == TracksUrl(playlistId)
      invariant k > 0 ==> requested[0] == TracksUrl(playlistId)
      invariant forall j :: 0 <= j < k - 1 ==> requested[j + 1] == rs[j].body.value.next
      invariant forall j :: 0 <= j < k ==> Delivered(rs[j])
      invariant combined == CombinedTracks(AllItems(Pages(rs, k)), CombinedTotal(Pages(rs, k)))
      decreases n + 1 - k
    {
      requested := requested + [nextUrl];
      var response := rs[k];
      if !Delivered(response) {
        result := Err(ErrorOf(response));
        return;
      }
      var page := response.body.value;
      assert Pages(rs, k + 1)[..k] == Pages(rs, k);
      var total := combined.total;
      if total == 0 {
        total := page.total;
      }
      var items := ElementsOf(page);
      combined := CombinedTracks(combined.items + items, total);
      nextUrl := page.next;
      k := k + 1;
    }
    result := Ok(combined);
  }

  /** The tracks of items that all decode. */
  function Tracks(items: seq<RawItem>): (tracks: seq<TrackItem>)
    requires forall i :: 0 <= i < |items| ==> items[i].TrackJson?
    ensures |tracks| == |items| && forall i :: 0 <= i < |items| ==> tracks[i] == items[i].track
  {
    seq(|items|, i requires 0 <= i < |items| && items[i].TrackJson? => items[i].track)
  }

  /** The album id of every track: the key of the `albumSet` map. */
  function AlbumIds(tracks: seq<TrackItem>): (keys: seq<Option<string>>)
    ensures |keys| == |tracks| && forall i :: 0 <= i < |tracks| ==> keys[i] == Some(tracks[i].album.id)
  {
    if tracks == [] then []
    else
      var n := |tracks| - 1;
      assert forall i :: 0 <= i < n ==> tracks[..n][i] == tracks[i];
      AlbumIds(tracks[..n]) + [Some(tracks[n].album.id)]
  }

  /** The tracks at the given indices, in the order of the indices. */
  function Pick(tracks: seq<TrackItem>, indices: seq<nat>): (picked: seq<TrackItem>)
    requires forall m :: 0 <= m < |indices| ==> indices[m] < |tracks|
    ensures |picked| == |indices| && forall m :: 0 <= m < |indices| ==> picked[m] == tracks[indices[m]]
  {
    seq(|indices|, m requires 0 <= m < |indices| => tracks[indices[m]])
  }

  /** The album ids seen after a run of decoded tracks: the keys of `albumSet`. */
  function AlbumsSeen(tracks: seq<TrackItem>): set<string>
  {
    if tracks == [] then {} else AlbumsSeen(tracks[..|tracks| - 1]) + {tracks[|tracks| - 1].album.id}
  }

  /** The tracks the unique-album filter keeps: a track is appended when its album is not yet seen. */
  function UniqueByAlbum(tracks: seq<TrackItem>): seq<TrackItem>
  {
    if tracks == [] then []
    else
      var n := |tracks| - 1;
      if tracks[n].album.id in AlbumsSeen(tracks[..n]) then UniqueByAlbum(tracks[..n])
      else UniqueByAlbum(tracks[..n]) + [tracks[n]]
  }

  /** `albumSet` holds exactly the album ids of the input. */
  lemma {:induction false} AlbumsSeenIsSeen(tracks: seq<TrackItem>)
    ensures AlbumsSeen(tracks) == Seen(AlbumIds(tracks))
  {
    if tracks != [] {
      var n := |tracks| - 1;
      var keys := AlbumIds(tracks);
      AlbumsSeenIsSeen(tracks[..n]);
      assert keys[..n] == AlbumIds(tracks[..n]);
    }
  }

  /** Picking indices below `n` from a sequence or from its first `n` elements is the same. */
  lemma PickPrefix(tracks: seq<TrackItem>, n: nat, indices: seq<nat>)
    requires n <= |tracks| && forall m :: 0 <= m < |indices| ==> indices[m] < n
    ensures Pick(tracks[..n], indices) == Pick(tracks, indices)
  {
  }

  /**
   * The filter is the first-wins rule on album ids: it keeps the tracks at the indices of
   * the first occurrences.
   */
  lemma {:induction false} UniqueByAlbumIsFirstWins(tracks: seq<TrackItem>)
    ensures UniqueByAlbum(tracks) == Pick(tracks, Firsts(AlbumIds(tracks)))
  {
    if tracks != [] {
      var n := |tracks| - 1;
      var pre := tracks[..n];
      var keys := AlbumIds(tracks);
      var before := Firsts(AlbumIds(pre));
      UniqueByAlbumIsFirstWins(pre);
      AlbumsSeenIsSeen(pre);
      assert keys[..n] == AlbumIds(pre);
      PickPrefix(tracks, n, before);
      if tracks[n].album.id !in AlbumsSeen(pre) {
        assert Pick(tracks, before + [n]) == Pick(tracks, before) + [tracks[n]];
      }
    }
  }

  lemma TracksSnoc(items: seq<RawItem>, i: nat)
    requires i < |items| && forall j :: 0 <= j <= i ==> items[j].TrackJson?
    ensures Tracks(items[..i + 1]) == Tracks(items[..i]) + [items[i].track]
  {
  }

  /**
   * The loop that decodes every element and keeps a track only when its album id is not yet
   * in `albumSet`. It fails as soon as an element does not decode; otherwise it returns the
   * kept tracks and the number of entries in `albumSet`.
   */
  method UniqueAlbums(items: seq<RawItem>) returns (result: Result<seq<TrackItem>, FetchError>, albumCount: nat)
    ensures result.Err? <==> exists i :: 0 <= i < |items| && items[i].Malformed?
    ensures result.Err? ==> result.error == BadItem
    ensures result.Ok? ==> result.value == UniqueByAlbum(Tracks(items))
    ensures result.Ok? ==> albumCount == |result.value|
  {
    var trackItems: seq<TrackItem> := [];
    var albumSet: set<string> := {};
    for i := 0 to |items|
      invariant forall j :: 0 <= j < i ==> items[j].TrackJson?
      invariant trackItems == UniqueByAlbum(Tracks(items[..i]))
      invariant albumSet == AlbumsSeen(Tracks(items[..i]))
    {
      if items[i].Malformed? {
        result := Err(BadItem);
        albumCount := 0;
        return;
      }
      var trackItem := items[i].track;
      TracksSnoc(items, i);
      assert Tracks(items[..i + 1])[..i] == Tracks(items[..i]);
      if trackItem.album.id !in albumSet {
        trackItems := trackItems + [trackItem];
        albumSet := albumSet + {trackItem.album.id};
      }
    }
    assert items[..|items|] == items;
    AlbumCountIsKeptCount(Tracks(items));
    result := Ok(trackItems);
    albumCount := |albumSet|;
  }

  /** No two kept tracks share an album. */
  lemma UniqueAlbumsDistinct(tracks: seq<TrackItem>)
    ensures var unique := UniqueByAlbum(tracks);
      forall m, m' :: 0 <= m < m' < |unique| ==> unique[m].album.id != unique[m'].album.id
  {
    UniqueByAlbumIsFirstWins(tracks);
    var keys := AlbumIds(tracks);
    var kept := Firsts(keys);
    KeptKeysDistinct(keys);
    forall m, m' | 0 <= m < m' < |kept|
      ensures tracks[kept[m]].album.id != tracks[kept[m']].album.id
    {
      assert keys[kept[m]] != keys[kept[m']];
    }
  }

  /** Each kept track is the first of its album in the input, and the kept tracks keep the input order. */
  lemma UniqueAlbumsFirstInOrder(tracks: seq<TrackItem>)
    ensures var kept := Firsts(AlbumIds(tracks));
      var unique := UniqueByAlbum(tracks);
      && |unique| == |kept|
      && (forall m :: 0 <= m < |kept| ==>
            unique[m] == tracks[kept[m]] &&
            forall j :: 0 <= j < kept[m] ==> tracks[j].album.id != unique[m].album.id)
      && (forall m, m' :: 0 <= m < m' < |kept| ==> kept[m] < kept[m'])
  {
    UniqueByAlbumIsFirstWins(tracks);
    var keys := AlbumIds(tracks);
    var kept := Firsts(keys);
    FirstsAreExactlyFirstOccurrences(keys);
    forall m | 0 <= m < |kept|
      ensures forall j :: 0 <= j < kept[m] ==> tracks[j].album.id != tracks[kept[m]].album.id
    {
      assert kept[m] in kept;
      assert IsFirst(keys, kept[m]);
      forall j | 0 <= j < kept[m] ensures tracks[j].album.id != tracks[kept[m]].album.id {
        assert keys[j] != keys[kept[m]];
      }
    }
  }

  /** Every album of the input has a kept track. */
  lemma UniqueAlbumsCoverInput(tracks: seq<TrackItem>)
    ensures var unique := UniqueByAlbum(tracks);
      forall i :: 0 <= i < |tracks| ==> exists m :: 0 <= m < |unique| && unique[m].album.id == tracks[i].album.id
  {
    UniqueByAlbumIsFirstWins(tracks);
    var keys := AlbumIds(tracks);
    var kept := Firsts(keys);
    KeptKeysCoverInput(keys);
    var unique := UniqueByAlbum(tracks);
    forall i | 0 <= i < |tracks|
      ensures exists m :: 0 <= m < |unique| && unique[m].album.id == tracks[i].album.id
    {
      assert keys[i] == Some(tracks[i].album.id);
      var m :| 0 <= m < |kept| && keys[kept[m]] == Some(tracks[i].album.id);
      assert unique[m] == tracks[kept[m]];
    }
  }

  /** `len(albumSet)` is the number of kept tracks. */
  lemma AlbumCountIsKeptCount(tracks: seq<TrackItem>)
    ensures |AlbumsSeen(tracks)| == |UniqueByAlbum(tracks)|
  {
    AlbumsSeenIsSeen(tracks);
    UniqueByAlbumIsFirstWins(tracks);
    KeptCountIsKeyCount(AlbumIds(tracks));
  }

  /**
   * `GetPlaylistTracks` up to the image processing: the pages are collected, then their
   * elements are decoded and filtered. Either step's failure is the call's failure.
   */
  method PlaylistTracks(playlistId: string, rs: seq<Response>) returns (result: Result<seq<TrackItem>, FetchError>)
    requires exists k :: 0 <= k < |rs| && !HasNext(rs[k])
    ensures var n := FirstStop(rs, 0);
      && (!Delivered(rs[n]) ==> result == Err(ErrorOf(rs[n])))
      && (Delivered(rs[n]) ==>
            var items := AllItems(Pages(rs, n + 1));
            && (result.Err? <==> exists i :: 0 <= i < |items| && items[i].Malformed?)
            && (result.Ok? ==> result.value == UniqueByAlbum(Tracks(items))))
  {
    var collected, _ := CollectPages(playlistId, rs);
    if collected.Err? {
      return Err(collected.error);
    }
    var unique, _ := UniqueAlbums(collected.value.items);
    result := unique;
  }
}
