# Media identity and grid reconciliation, modelled in Dafny

This project models two pieces of the MovieMaker gallery:

- **`Media`** (`media.dfy`, module `MediaIdentity`). This is the immutable record of one image or video. It has the fields `uriString`, `path`, `createdDate`, `fileSize` and `duration`, and `duration` defaults to 0. The record derives two values:
  - `id`, a hash of a three-part key: the last URI segment (after the last `/`, then after the last `\`), `createdDate` truncated to whole seconds, and `fileSize`.
  - `isImage`, a test for the substring `"images"` in the URI.

  Kotlin's `Long` division truncates toward zero, and `TruncDiv` models it that way. Kotlin's `Long` and `Int` are the Dafny subset types `Long` and `Int32` of `int`, with their 64-bit and 32-bit ranges. `substringAfterLast` is modelled by `LastIndexOf` and `SubstringAfterLast`; when the delimiter is missing it returns the whole string.
- **`MediaGridView`** (`media_grid_view.dfy`, module `MediaGrid`). This is the view's state, with the Android widgets stripped away. The class `MediaGridView` has these fields:
  - `mediaList`, the records the view holds;
  - `loading`, whether the progress bar is visible (what `isLoadingMedia` reads);
  - `emptyShown` and `gridShown`, whether the empty-state group and the grid are visible;
  - `displayed`, the list last handed to the grid controller;
  - `saved`, the list last persisted as saved media;
  - `notified`, the sizes passed to listeners, in order.

  `syncMedia` is the method `SyncMedia`, a loop proved against the filter function `ExistingMedia`. Loading is asynchronous in the source, so `loadMediaList` is split into two steps:
  - `BeginLoad`, the guard plus the switch to the loading indicator;
  - `CompleteLoad`, the delivery of the candidates on the main thread.

  A record appended between these two steps can therefore be lost. The scenario `AppendDuringLoadIsOverwritten` shows this.

Parameters stand in for the environment:
- A predicate `fileExists: string -> bool` replaces `File(path).exists()`.
- The candidate list from the media source is an argument of `CompleteLoad`.
- A flag `notify` says whether the caller passed a listener.
- The hash of the key is a function parameter.

`(createdDate / 1000) * 1000` uses Kotlin's `Long` division, which truncates toward zero, so it is not a floor. For dates before 1970 it rounds toward zero, and every date from -999 ms to 999 ms falls in second 0 (see `InSecond`).

## Model

| member | source | states |
|---|---|---|
| `MediaIdentity.DurationDefaultsToZero` | common/src/main/kotlin/com/moviemaker/domain/Media.kt:101-107 | A record built without a duration has duration 0 and equals the one built with 0. |
| `MediaIdentity.TruncDiv` | common/src/main/kotlin/com/moviemaker/domain/Media.kt:111 | Kotlin `Long` division by a positive divisor. For a non-negative dividend the quotient q satisfies `0 <= q` and `q*b <= a < q*b + b`. For a negative dividend, `q <= 0` and `q*b - b < a <= q*b` (truncation toward zero). |
| `MediaIdentity.TruncDivUnique` | common/src/main/kotlin/com/moviemaker/domain/Media.kt:111 | Any integer meeting TruncDiv's contract equals TruncDiv's result, so the quotient is unique. |
| `MediaIdentity.TruncateToSecond` | common/src/main/kotlin/com/moviemaker/domain/Media.kt:111 | The truncated date is a multiple of 1000. For a non-negative date, `t <= date < t + 1000`. For a negative date, `t - 1000 < date <= t`. |
| `MediaIdentity.TruncateIdempotent` | common/src/main/kotlin/com/moviemaker/domain/Media.kt:111 | Truncating an already truncated date returns it unchanged. |
| `MediaIdentity.TruncateInSecond` | common/src/main/kotlin/com/moviemaker/domain/Media.kt:111 | A date truncates to `1000*s` exactly when it lies in second `s` as truncating division sees it (both directions). |
| `MediaIdentity.LastIndexOf` | common/src/main/kotlin/com/moviemaker/domain/Media.kt:110 | Returns -1 or an index holding the character, and no later index holds it. |
| `MediaIdentity.SubstringAfterLast` | common/src/main/kotlin/com/moviemaker/domain/Media.kt:110 | The result is a suffix free of the delimiter. It is the whole string when the delimiter is absent; otherwise the delimiter directly precedes it. |
| `MediaIdentity.AfterLastAppendFree` | common/src/main/kotlin/com/moviemaker/domain/Media.kt:110 | Appending delimiter-free text extends the segment after the last delimiter by that text. |
| `MediaIdentity.AfterLastAppendHas` | common/src/main/kotlin/com/moviemaker/domain/Media.kt:110 | Once the appended text contains the delimiter, the prefix before it does not affect the result. |
| `MediaIdentity.AfterLastBehindDelimiter` | common/src/main/kotlin/com/moviemaker/domain/Media.kt:110 | A string placed after `prefix + delimiter` keeps its own segment after the last delimiter. |
| `MediaIdentity.LastSegment` | common/src/main/kotlin/com/moviemaker/domain/Media.kt:110 | The segment is a suffix of the URI that contains neither `/` nor `\`. It is the whole URI when the URI has no separator. |
| `MediaIdentity.DirectoryPrefixIgnored` | common/src/main/kotlin/com/moviemaker/domain/Media.kt:110 | `dir + "/" + name` and `dir + "\" + name` have the same last segment as `name`, for any `dir`. |
| `MediaIdentity.Key` | common/src/main/kotlin/com/moviemaker/domain/Media.kt:109-112 | The key's segment is a suffix of the URI with neither `/` nor `\`. Its date is a multiple of 1000 within one second of `createdDate`, on the side of zero. Its size is `fileSize`. |
| `MediaIdentity.KeyEqualIff` | common/src/main/kotlin/com/moviemaker/domain/Media.kt:108-113 | Two keys are equal exactly when the last segments, the second quotients `createdDate / 1000` and the file sizes are equal. `path` and `duration` play no part. |
| `MediaIdentity.SameSecondSameKey` | common/src/main/kotlin/com/moviemaker/domain/Media.kt:111 | Records with equal last segment and size, whose dates fall in the same second `s`, have equal keys whose date is `1000*s`. So sub-second jitter is collapsed. |
| `MediaIdentity.Id` | common/src/main/kotlin/com/moviemaker/domain/Media.kt:108-113 | The intended `id`, a hash of the key: every record with the same key gets the same id. |
| `MediaIdentity.SameSecondSameId` | common/src/main/kotlin/com/moviemaker/domain/Media.kt:108-113 | With a content hash of the key, such records also have equal ids. |
| `MediaIdentity.IdAsWrittenIgnoresRecord` | common/src/main/kotlin/com/moviemaker/domain/Media.kt:108-113 | `IdAsWritten`, the source's `id`, depends only on the array allocation: any two records, even with different keys, get the same value from the same allocation. |
| `MediaIdentity.IdAsWrittenIsUnstable` | common/src/main/kotlin/com/moviemaker/domain/Media.kt:108-113 | The source's `id` comes from the identity hash of a fresh array. Two reads of `id` on the same record give different values when the two arrays have different identity hashes. |
| `MediaIdentity.Contains` | common/src/main/kotlin/com/moviemaker/domain/Media.kt:116 | `contains` is true exactly when the pattern occurs at some position of the string. |
| `MediaIdentity.IsImage` | common/src/main/kotlin/com/moviemaker/domain/Media.kt:115-116 | A record is an image exactly when `"images"` occurs somewhere in its URI. |
| `MediaGrid.ExistingMedia` | android-app/src/main/kotlin/com/moviemaker/ui/media/MediaGridView.kt:114-125 | The filter never lengthens the list. A record is in the result exactly when it is in the input and its file exists. |
| `MediaGrid.ExistingMediaIsSubsequence` | android-app/src/main/kotlin/com/moviemaker/ui/media/MediaGridView.kt:116-122 | The filtered list is a subsequence of the input: order is kept and records are not altered. |
| `MediaGrid.ExistingMediaAppend` | android-app/src/main/kotlin/com/moviemaker/ui/media/MediaGridView.kt:117-122 | Filtering `a + b` gives `filter(a) + filter(b)`, so each record is judged alone and the survivors keep their places. |
| `MediaGrid.ExistingMediaAllExist` | android-app/src/main/kotlin/com/moviemaker/ui/media/MediaGridView.kt:116-122 | When every file exists, the filter returns its input unchanged. |
| `MediaGrid.ExistingMediaDropsMissing` | android-app/src/main/kotlin/com/moviemaker/ui/media/MediaGridView.kt:118-121 | One record with a missing file makes the result strictly shorter than the input. |
| `MediaGrid.ExistingMediaIdempotent` | android-app/src/main/kotlin/com/moviemaker/ui/media/MediaGridView.kt:114-125 | Filtering an already filtered list changes nothing. |
| `MediaGrid.SyncMedia` | android-app/src/main/kotlin/com/moviemaker/ui/media/MediaGridView.kt:114-125 | The loop's result equals the filter of the candidates. It is a subsequence of them and no longer than them. It equals the candidates when every file exists. |
| `MediaGrid.MediaGridView.constructor` | android-app/src/main/kotlin/com/moviemaker/ui/media/MediaGridView.kt:44 | A new view holds an empty list, is not loading, has reported nothing yet, and keeps the persisted value it was given. |
| `MediaGrid.MediaGridView.IsLoadingMedia` | android-app/src/main/kotlin/com/moviemaker/ui/media/MediaGridView.kt:127 | True exactly when the progress bar is visible. In a valid state, a view that is loading does not show its empty state. |
| `MediaGrid.MediaGridView.BeginLoad` | android-app/src/main/kotlin/com/moviemaker/ui/media/MediaGridView.kt:86-89 | While loading, the whole state is unchanged (list, flags, persisted value, listener log). Otherwise it sets `loading`, hides the empty state and the grid, and leaves the list untouched. |
| `MediaGrid.MediaGridView.CompleteLoad` | android-app/src/main/kotlin/com/moviemaker/ui/media/MediaGridView.kt:90-108 | The list becomes exactly the filtered candidates, and the old contents are discarded. `loading` is cleared. The empty state is shown exactly when the list is empty and the grid exactly when it is not. The listener, if any, receives the new size. The persisted value is untouched. |
| `MediaGrid.MediaGridView.AddMedia` | android-app/src/main/kotlin/com/moviemaker/ui/media/MediaGridView.kt:129-146 | The new list is the old list plus the record; there is no de-duplication, so the length grows by exactly 1. The persisted value is the whole new list. The empty state is hidden and the grid shown. `loading` is untouched. The listener, if any, receives the new size. |
| `MediaGrid.MediaGridView.GetMediaList` | android-app/src/main/kotlin/com/moviemaker/ui/media/MediaGridView.kt:148 | The snapshot equals the held list, and as a value it is not affected by later changes. |
| `MediaGrid.MediaGridView.ShowLoading` | android-app/src/main/kotlin/com/moviemaker/ui/media/MediaGridView.kt:162-165 | Sets `loading` and hides the empty state; nothing else changes. |
| `MediaGrid.MediaGridView.HideLoading` | android-app/src/main/kotlin/com/moviemaker/ui/media/MediaGridView.kt:167-169 | Clears `loading`; nothing else changes. |
| `MediaGrid.FilterDropsDeletedFile` | android-app/src/main/kotlin/com/moviemaker/ui/media/MediaGridView.kt:117-122 | For three records where only the second file is missing, the filter keeps the first and the third. |
| `MediaGrid.RefreshDropsDeletedFile` | android-app/src/main/kotlin/com/moviemaker/ui/media/MediaGridView.kt:86-108 | A view first loads records 1, 2 and 3 with all files present, so it holds all three. After file 2 is deleted, a second load is accepted. The view then holds records 1 and 3, and that load's listener receives 2. |
| `MediaGrid.AppendToEmpty` | android-app/src/main/kotlin/com/moviemaker/ui/media/MediaGridView.kt:129-146 | Appending to an empty view persists exactly that record, and the listener receives 1. |
| `MediaGrid.AppendDuringLoadIsOverwritten` | android-app/src/main/kotlin/com/moviemaker/ui/media/MediaGridView.kt:86-146 | A second load request made during a load is refused. A record appended during the load is lost when the load completes without it. |

The class invariant `MediaGridView.Valid` is kept by every method and holds four facts:
- the grid controller was handed exactly the held list;
- the empty state is shown only for an empty list;
- the empty state is never shown while loading;
- the empty state and the grid are never shown together.

## Findings

| source | as written | input that shows it | evidently intended | confidence | as-written member | corrected member |
|---|---|---|---|---|---|---|
| common/src/main/kotlin/com/moviemaker/domain/Media.kt:108-113 | `arrayOf(...).hashCode()` on the JVM is the identity hash of the newly allocated array. It ignores the array's contents, and each read of `id` allocates a new array. | Any one record read twice: the two arrays typically get different identity hashes (the JVM does not guarantee it), and then the two ids differ. | A content hash of the key (as `contentHashCode()` would give), so records with equal keys get equal ids. | high; not executed | `MediaIdentity.IdAsWritten`, `MediaIdentity.IdAsWrittenIsUnstable` | `MediaIdentity.Id`, `MediaIdentity.SameSecondSameId` |

## Left out

- View plumbing is not modelled: the widgets, layout manager, span count, spacing decoration and `onAttachedToWindow`. Only the visibility of the progress bar, the empty group and the grid is kept, as booleans. The layout file is not part of this model, so the constructor assumes the progress bar and empty group start hidden and the grid starts shown.
- RxJava threading and cancellation are not modelled: `subscribeOn`, `observeOn`, the `CompositeDisposable` and its clearing in `onDetachedFromWindow`. They concern concurrency. The load is two sequential steps, and a result delivered after detachment is not modelled.
- The media-source interactor and its data source are not modelled. Their result is the `candidates` argument of `CompleteLoad`.
- The JSON adapter and the preferences store are not modelled. Persisting is modelled as `saved := mediaList`, with no serialization format, no round trip and no write failure.
- `File(path).exists()` is filesystem I/O. It is the `fileExists` parameter, and a filesystem error is not modelled.
- `MediaIdentity.Id`: the 32-bit hash function is an abstract parameter, so no claim is made about actual hash values or collisions.
- The grid controller's internals are not modelled; `controller.media.accept` is recorded only as the `displayed` field.
- `MediaGrid.MediaGridView.CompleteLoad`: the `notify` flag is a free argument. It is not tied to the request that `BeginLoad` accepted, whereas in the source the listener is captured by that accepted `loadMediaList` call.
- The source has no error handler on the load subscription, so the model has no failed-load path.
- Logging is not modelled: the logging calls and the commented-out code.
