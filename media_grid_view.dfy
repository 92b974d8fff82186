/** The state behind the media grid view: the in-memory list of records, the
    loading flag, the empty-state flag, the list handed to the grid, the
    persisted value and the sizes reported to listeners. Loading is split into
    its two halves: the guarded start and the delivery of the filtered
    candidates. */
module MediaGrid {
  import opened MediaIdentity

  // ---------------------------------------------------------------------------
  // The existence filter

  /** The records of `candidates` whose file exists, in their original order. */
  function ExistingMedia(candidates: seq<Media>, fileExists: string -> bool): (r: seq<Media>)
    ensures |r| <= |candidates|
    ensures forall m :: m in r <==> m in candidates && fileExists(m.path)
  {
    if candidates == [] then []
    else
      var last := candidates[|candidates| - 1];
      ExistingMedia(candidates[..|candidates| - 1], fileExists) + (if fileExists(last.path) then [last] else [])
  }

  /** `sub` is `s` with some elements left out, the rest kept in order. */
  predicate IsSubsequence(sub: seq<Media>, s: seq<Media>)
  {
    if sub == [] then true
    else if s == [] then false
    else if sub[|sub| - 1] == s[|s| - 1] then IsSubsequence(sub[..|sub| - 1], s[..|s| - 1])
    else IsSubsequence(sub, s[..|s| - 1])
  }

  /** The filter keeps a subsequence of its input: order is preserved and no
      record is altered. */
  lemma {:induction false} ExistingMediaIsSubsequence(s: seq<Media>, fileExists: string -> bool)
    ensures IsSubsequence(ExistingMedia(s, fileExists), s)
  {
    if s != [] {
      var init := s[..|s| - 1];
      ExistingMediaIsSubsequence(init, fileExists);
      var r := ExistingMedia(s, fileExists);
      if fileExists(s[|s| - 1].path) {
        assert r[..|r| - 1] == ExistingMedia(init, fileExists);
      } else if r != [] {
        assert r == ExistingMedia(init, fileExists);
        assert r[|r| - 1] in r;
        assert r[|r| - 1] != s[|s| - 1];
      }
    }
  }

  /** Filtering a concatenation filters each part: the filter decides on each
      record alone and keeps the survivors in place. */
  lemma {:induction false} ExistingMediaAppend(a: seq<Media>, b: seq<Media>, fileExists: string -> bool)
    ensures ExistingMedia(a + b, fileExists) == ExistingMedia(a, fileExists) + ExistingMedia(b, fileExists)
  {
    if b == [] {
      assert a + b == a;
    } else {
      var last := b[|b| - 1];
      var binit := b[..|b| - 1];
      assert (a + b)[..|a + b| - 1] == a + binit;
      ExistingMediaAppend(a, binit, fileExists);
    }
  }

  /** When every file exists the filter returns its input unchanged. */
  lemma {:induction false} ExistingMediaAllExist(s: seq<Media>, fileExists: string -> bool)
    requires forall i :: 0 <= i < |s| ==> fileExists(s[i].path)
    ensures ExistingMedia(s, fileExists) == s
  {
    if s != [] {
      var init := s[..|s| - 1];
      assert forall i :: 0 <= i < |init| ==> init[i] == s[i];
      ExistingMediaAllExist(init, fileExists);
      assert fileExists(s[|s| - 1].path);
      assert s == init + [s[|s| - 1]];
    }
  }

  /** A record whose file is missing makes the result strictly shorter. */
  lemma {:induction false} ExistingMediaDropsMissing(s: seq<Media>, fileExists: string -> bool, k: int)
    requires 0 <= k < |s| && !fileExists(s[k].path)
    ensures |ExistingMedia(s, fileExists)| < |s|
  {
    if k < |s| - 1 {
      ExistingMediaDropsMissing(s[..|s| - 1], fileExists, k);
    }
  }

  /** Filtering twice is filtering once. */
  lemma ExistingMediaIdempotent(s: seq<Media>, fileExists: string -> bool)
    ensures ExistingMedia(ExistingMedia(s, fileExists), fileExists) == ExistingMedia(s, fileExists)
  {
    var r := ExistingMedia(s, fileExists);
    assert forall i :: 0 <= i < |r| ==> r[i] in r;
    ExistingMediaAllExist(r, fileExists);
  }

  /** `syncMedia`: builds a fresh list of the records whose file exists, by
      visiting the candidates in order. */
  method SyncMedia(currMediaList: seq<Media>, fileExists: string -> bool) returns (mediaList: seq<Media>)
    ensures mediaList == ExistingMedia(currMediaList, fileExists)
    ensures IsSubsequence(mediaList, currMediaList)
    ensures |mediaList| <= |currMediaList|
    ensures (forall i :: 0 <= i < |currMediaList| ==> fileExists(currMediaList[i].path)) ==> mediaList == currMediaList
  {
    mediaList := [];
    for i := 0 to |currMediaList|
      invariant mediaList == ExistingMedia(currMediaList[..i], fileExists)
    {
      var media := currMediaList[i];
      assert currMediaList[..i + 1][..i] == currMediaList[..i];
      if fileExists(media.path) {
        mediaList := mediaList + [media];
      }
    }
    assert currMediaList[..|currMediaList|] == currMediaList;
    ExistingMediaIsSubsequence(currMediaList, fileExists);
    if forall i :: 0 <= i < |currMediaList| ==> fileExists(currMediaList[i].path) {
      ExistingMediaAllExist(currMediaList, fileExists);
    }
  }

  // ---------------------------------------------------------------------------
  // The view's state

  class MediaGridView {
    /** The records the view holds, in display order. */
    var mediaList: seq<Media>
    /** The progress bar is visible: a load is in progress. */
    var loading: bool
    /** The empty-state group is visible. */
    var emptyShown: bool
    /** The grid is visible. */
    var gridShown: bool
    /** The last list handed to the grid's controller. */
    var displayed: seq<Media>
    /** The list last written to the preferences store as saved media. */
    var saved: seq<Media>
    /** The sizes passed to listeners, oldest first. */
    var notified: seq<int>

    /** The grid shows exactly the held list, the empty state is shown only for
        an empty list and never while loading, and the empty state and the grid
        are never both shown. */
    ghost predicate Valid()
      reads this
    {
      displayed == mediaList &&
      (emptyShown ==> mediaList == []) &&
      (loading ==> !emptyShown) &&
      !(emptyShown && gridShown)
    }

    /** A freshly inflated view: nothing loaded, progress bar and empty state
        hidden, the grid shown; `persisted` is what the preferences store
        already holds. */
    constructor (persisted: seq<Media>)
      ensures Valid()
      ensures mediaList == [] && !loading && !emptyShown && gridShown
      ensures saved == persisted && notified == []
    {
      mediaList := [];
      loading := false;
      emptyShown := false;
      gridShown := true;
      displayed := [];
      saved := persisted;
      notified := [];
    }

    /** `isLoadingMedia`: the progress bar is visible. A view that is loading
        does not show its empty state. */
    predicate IsLoadingMedia()
      reads this
      ensures IsLoadingMedia() <==> loading
      ensures Valid() && IsLoadingMedia() ==> !emptyShown
    {
      loading
    }

    /** The synchronous half of `loadMediaList`. While a load is in progress
        it does nothing at all; otherwise it shows the progress bar and hides
        the empty state and the grid. The list is not touched yet. */
    method BeginLoad() returns (started: bool)
      requires Valid()
      modifies this
      ensures Valid()
      ensures started <==> !old(loading)
      ensures !started ==> unchanged(this)
      ensures started ==> loading && !emptyShown && !gridShown
      ensures mediaList == old(mediaList) && displayed == old(displayed)
      ensures saved == old(saved) && notified == old(notified)
    {
      if IsLoadingMedia() {
        return false;
      }
      started := true;
      loading := true;
      emptyShown, gridShown := false, false;
    }

    /** The asynchronous half of `loadMediaList`: `candidates` are the records
        the media source delivered, `fileExists` answers for each path, and
        `notify` says whether the request carried a listener. The filtered
        candidates replace the whole list, the progress bar is hidden, the
        empty state is shown exactly for an empty result, and the listener
        gets the new size. The model does not tie `notify` to the request that
        `BeginLoad` accepted; in the source the listener is captured by that
        accepted `loadMediaList` call. */
    method CompleteLoad(candidates: seq<Media>, fileExists: string -> bool, notify: bool)
      requires Valid()
      modifies this
      ensures Valid()
      ensures mediaList == ExistingMedia(candidates, fileExists)
      ensures !loading
      ensures emptyShown <==> mediaList == []
      ensures gridShown <==> mediaList != []
      ensures notified == old(notified) + (if notify then [|mediaList|] else [])
      ensures saved == old(saved)
    {
      var filtered := SyncMedia(candidates, fileExists);
      loading := false;
      mediaList := [];
      mediaList := mediaList + filtered;
      displayed := filtered;
      emptyShown, gridShown := |mediaList| == 0, |mediaList| != 0;
      if notify {
        notified := notified + [|mediaList|];
      }
    }

    /** `addMedia`: appends the record without looking for duplicates, persists
        the whole new list, hands it to the grid and reports the new size. */
    method AddMedia(media: Media, notify: bool)
      requires Valid()
      modifies this
      ensures Valid()
      ensures mediaList == old(mediaList) + [media]
      ensures |mediaList| == |old(mediaList)| + 1
      ensures saved == mediaList
      ensures !emptyShown && gridShown
      ensures loading == old(loading)
      ensures notified == old(notified) + (if notify then [|mediaList|] else [])
    {
      mediaList := mediaList + [media];
      saved := mediaList;
      displayed := mediaList;
      emptyShown, gridShown := |mediaList| == 0, |mediaList| != 0;
      if notify {
        notified := notified + [|mediaList|];
      }
    }

    /** `getMediaList`: a copy of the held list. Being a value, it is not
        affected by later changes to the view. */
    method GetMediaList() returns (snapshot: seq<Media>)
      ensures snapshot == mediaList
    {
      snapshot := mediaList;
    }

    /** `showLoading`: hides the empty state and shows the progress bar. */
    method ShowLoading()
      requires Valid()
      modifies this
      ensures Valid()
      ensures loading && !emptyShown
      ensures mediaList == old(mediaList) && displayed == old(displayed) && gridShown == old(gridShown)
      ensures saved == old(saved) && notified == old(notified)
    {
      emptyShown := false;
      loading := true;
    }

    /** `hideLoading`: hides the progress bar. */
    method HideLoading()
      requires Valid()
      modifies this
      ensures Valid()
      ensures !loading
      ensures mediaList == old(mediaList) && displayed == old(displayed)
      ensures emptyShown == old(emptyShown) && gridShown == old(gridShown)
      ensures saved == old(saved) && notified == old(notified)
    {
      loading := false;
    }
  }

  // ---------------------------------------------------------------------------
  // Scenarios, proved from the contracts above

  /** The file of the second of three records is missing: the filter keeps
      the first and the third. */
  lemma {:induction false} FilterDropsDeletedFile(one: Media, two: Media, three: Media, fileExists: string -> bool)
    requires fileExists(one.path) && !fileExists(two.path) && fileExists(three.path)
    ensures ExistingMedia([one, two, three], fileExists) == [one, three]
  {
    assert [one, two, three][..2] == [one, two];
    assert [one, two][..1] == [one];
    assert [one][..0] == [];
  }

  /** A view holding records 1, 2 and 3 reloads after the file of record 2 was
      deleted: it then holds records 1 and 3 and reports 2. */
  method RefreshDropsDeletedFile(one: Media, two: Media, three: Media, fileExists: string -> bool)
    returns (list: seq<Media>, reported: seq<int>)
    requires fileExists(one.path) && !fileExists(two.path) && fileExists(three.path)
    ensures list == [one, three] && reported == [2]
  {
    var view := new MediaGridView([]);
    var started := view.BeginLoad();
    view.CompleteLoad([one, two, three], p => true, false);
    assert view.mediaList == [one, two, three] by {
      ExistingMediaAllExist([one, two, three], p => true);
    }
    started := view.BeginLoad();
    assert started;
    view.CompleteLoad([one, two, three], fileExists, true);
    FilterDropsDeletedFile(one, two, three, fileExists);
    list := view.GetMediaList();
    reported := view.notified;
  }

  /** An empty view gets one record: the listener hears 1 and the persisted
      value is that one record. */
  method AppendToEmpty(media: Media) returns (saved: seq<Media>, reported: seq<int>)
    ensures saved == [media] && reported == [1]
  {
    var view := new MediaGridView([]);
    view.AddMedia(media, true);
    saved := view.saved;
    reported := view.notified;
  }

  /** A second load request while one is in flight is ignored, and a record
      appended during the load is lost when the load completes with
      candidates that do not include it. */
  method AppendDuringLoadIsOverwritten(old1: Media, added: Media) returns (list: seq<Media>, secondStarted: bool)
    requires old1 != added
    ensures list == [old1] && !secondStarted
  {
    var view := new MediaGridView([]);
    var started := view.BeginLoad();
    secondStarted := view.BeginLoad();
    view.AddMedia(added, false);
    view.CompleteLoad([old1], p => true, false);
    assert view.mediaList == [old1] by {
      ExistingMediaAllExist([old1], p => true);
    }
    list := view.GetMediaList();
  }
}
