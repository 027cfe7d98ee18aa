# Spotify playlist vs local library comparator, modelled in Dafny

The comparator reads the tracks of a Spotify playlist and the audio files of a
local music directory. It turns both into "Artist - Title" labels and keeps
every playlist label that has no close enough local label. Closeness is
rapidfuzz's `token_sort_ratio` score, compared with a threshold of 80 by
default. The kept labels become a new private playlist.

This project models the comparison and the pure parts of the two inventory
builders:

- `wrappers.dfy`, module `Wrappers`: `Option` and `Result`.
- `labels.dfy`, module `Labels`: the label `f"{artist} - {title}"` shared by
  both inventories, and `SplitLabel`, its inverse.
- `local_tracks.dfy`, module `LocalTracks` (`get_local_tracks`):
  - the case-insensitive audio-extension test;
  - the label of one file, with the "Unknown" and file-name defaults and the
    file-name fallback when tag reading raises;
  - the directory walk as a method with two nested loops. The method is
    proved to return `LocalLabels` of the walked files.
- `spotify_tracks.dfy`, module `SpotifyTracks` (`get_spotify_tracks`):
  - the page loop as a method that follows the page cursor over a given
    sequence of pages;
  - null track entries are skipped;
  - a track without artists raises and ends the run. The model returns
    `Failure` for it.
- `compare.dfy`, module `Compare` (`find_missing_tracks`):
  - `process.extractOne` as `ExtractOne`, a best match with the first of
    tied choices;
  - the loop as a method proved equal to `Missing`. `Missing` is the
    order-preserving filter of remote labels that no local label matches;
  - the properties of `Missing` as lemmas.

The scorer is a parameter `scorer: (string, string) -> real`. Its algorithm
belongs to the rapidfuzz library and is not modelled. `ExtractOne` keeps
`extractOne`'s default score cutoff of 0: a choice scoring below 0 is never
reported. A label therefore counts as matched only when some local label
reaches both the threshold and 0 (`Compare.Bar`). Two further library facts
appear only as `requires` of the lemmas that use them:

- scores are never below 0 (`NonNegative`); with it, "unmatched" is simply
  "every local label scores below the threshold" (`NoMatchBelowThreshold`);
- a label scores 100 against itself.

Points where the code's behaviour is easy to miss:

- A track with an empty artist list makes `track['artists'][0]` raise
  (spotify_comparer.py:60). The exception is not caught, so the run stops
  instead of skipping the item; `GetSpotifyTracks` returns `Failure`.
- The local inventory is a list (spotify_comparer.py:72), so the model keeps it
  as a sequence, in walk order and with repeated labels.
- A tag key with an empty value list makes `[0]` raise inside the `try`, and
  the file falls back to its bare name (spotify_comparer.py:79-83);
  `LocalLabel` models it.

## Model

| member | source | states |
|---|---|---|
| Labels.Label | spotify_comparer.py:61 | the label is the artist, then " - ", then the title, at those exact positions |
| Labels.SplitLabel | spotify_comparer.py:81 | splitting at the first " - " gives back an artist and a title whose label is the input, and no separator starts inside the artist; no split exactly when the text holds no separator |
| Labels.SplitLabelInverse | spotify_comparer.py:81 | a label whose artist holds no separator splits back into exactly its artist and title |
| Labels.LabelInjective | spotify_comparer.py:61 | labels of separator-free artists are equal only when artists and titles are equal |
| LocalTracks.Lower | spotify_comparer.py:75 | `file.lower()` on A to Z: same length, each character lower-cased |
| LocalTracks.EndsWith | spotify_comparer.py:75 | `str.endswith`: true exactly when the text is some prefix followed by the suffix |
| LocalTracks.IsAudioFile | spotify_comparer.py:75 | the lower-cased name ends in one of .mp3, .flac, .wav; a name it accepts has at least four characters |
| LocalTracks.AudioFileByTail | spotify_comparer.py:75 | a file is scanned exactly when some extension among .mp3, .flac, .wav equals the lower-cased tail of its name of that length |
| LocalTracks.AudioFileAccepts | spotify_comparer.py:75 | any name followed by an audio extension is scanned |
| LocalTracks.AudioFileIgnoresCase | spotify_comparer.py:75 | lower-casing a name never changes whether it is scanned |
| LocalTracks.FirstTag | spotify_comparer.py:79-80 | `meta.get(key, [default])[0]`: the default for a missing key, the first value of a present key, no value (the raise) for an empty list |
| LocalTracks.LocalLabel | spotify_comparer.py:77-83 | file name when the tags cannot be read or a tag list is empty; otherwise "artist - title" with "Unknown" for a missing artist and the file name for a missing title |
| LocalTracks.Flatten | spotify_comparer.py:73-74 | a file is walked exactly when some walked directory lists it |
| LocalTracks.Scanned | spotify_comparer.py:74-75 | the scanned files are exactly the walked files with an audio extension, no more of them than walked files |
| LocalTracks.LocalLabels | spotify_comparer.py:72-83 | the labels of the scanned files in walk order; never more labels than files |
| LocalTracks.OneLabelPerScannedFile | spotify_comparer.py:74-83 | every scanned file contributes exactly one label, the k-th label being the k-th scanned file's |
| LocalTracks.LocalLabelsAppend | spotify_comparer.py:73-74 | scanning two runs of files yields the labels of the first run, then those of the second |
| LocalTracks.GetLocalTracks | spotify_comparer.py:70-85 | the nested walk loop returns the labels of the scanned files of all directories, in walk order |
| SpotifyTracks.VisitedFrom | spotify_comparer.py:55-62 | from page i the cursor visits at least page i and never runs past the last page |
| SpotifyTracks.Reached | spotify_comparer.py:52-62 | the visited pages are a prefix of the pages |
| SpotifyTracks.VisitedFromStops | spotify_comparer.py:55-62 | from page i, every visited page but the last links onward, and the cursor stops early only at a page without a link |
| SpotifyTracks.ReachedUpToFirstLast | spotify_comparer.py:55-62 | the first page is always visited, every visited page but the last has a next link, and the visit stops before the end only at a page without one |
| SpotifyTracks.ReachedAll | spotify_comparer.py:55-62 | when every page but the last links onward, all pages are visited |
| SpotifyTracks.ItemsMembers | spotify_comparer.py:55-56 | an item is collected exactly when some page lists it |
| SpotifyTracks.ItemsAppend | spotify_comparer.py:55-56 | the items of two runs of pages are those of the first run, then those of the second |
| SpotifyTracks.Present | spotify_comparer.py:57-58 | the present tracks are exactly the non-null track entries, and all have an artist when the items are labelable |
| SpotifyTracks.TrackLabel | spotify_comparer.py:59-61 | the label is the track's first artist, then " - ", then its name, at those exact positions |
| SpotifyTracks.ItemLabels | spotify_comparer.py:56-61 | the labels of the present tracks of the items, in order; never more labels than items |
| SpotifyTracks.OneLabelPerPresentTrack | spotify_comparer.py:56-61 | one label per non-null track, the k-th label being "first artist - name" of the k-th present track |
| SpotifyTracks.ItemLabelsAppend | spotify_comparer.py:56-61 | labelling two runs of items gives the labels of the first, then those of the second |
| SpotifyTracks.NullItemSkipped | spotify_comparer.py:57-58 | a null entry anywhere adds no label and does not stop the entries after it |
| SpotifyTracks.BadItemReached | spotify_comparer.py:56-60 | item j of a visited page i stands at the position after the items of the pages before it |
| SpotifyTracks.GetSpotifyTracks | spotify_comparer.py:50-65 | succeeds exactly when every present track on the visited pages has an artist, then returns their labels in page-then-item order; otherwise reports a visited track without artists |
| Compare.ExtractOne | spotify_comparer.py:94 | no match exactly when no choice reaches the cutoff 0 (so for no choices); otherwise a choice with the highest score, at least 0, and no earlier choice scores as high |
| Compare.Bar | spotify_comparer.py:94-95 | the score a match needs: at least the threshold and at least the cutoff 0, and equal to one of them |
| Compare.NoMatchBelowThreshold | spotify_comparer.py:94-95 | with non-negative scores, unmatched means every local label scores below the threshold |
| Compare.Missing | spotify_comparer.py:92-96 | the unmatched remote labels, in order with repetitions; never more than the remote labels |
| Compare.TieBreakIrrelevant | spotify_comparer.py:94-95 | any highest-scoring local label is below the bar exactly when every local label is, so the tie-break cannot change the outcome |
| Compare.ExtractOneDecides | spotify_comparer.py:94-95 | "no match, or best score below threshold" holds exactly when no local label reaches the threshold |
| Compare.FindMissingTracks | spotify_comparer.py:90-99 | the loop returns exactly the remote labels that no local label matches, in order |
| Compare.MissingPositions | spotify_comparer.py:92-96 | the result sits at strictly increasing remote positions, which are exactly the positions of unmatched labels |
| Compare.MissingCount | spotify_comparer.py:93-96 | an unmatched label is kept as often as it occurs remotely; a matched label is never kept |
| Compare.MissingMembers | spotify_comparer.py:93-96 | a label is in the result exactly when it is a remote label that no local label matches; the result is no longer than the remote list |
| Compare.PositionsBound | spotify_comparer.py:92-96 | strictly increasing positions below n number at most n |
| Compare.KeptBelowCutoff | spotify_comparer.py:94-95 | a remote label that every local label scores below 0 is kept whatever the threshold, because no match is reported |
| Compare.AllMissingWithoutLocal | spotify_comparer.py:94-95 | with no local labels the result is the remote list itself |
| Compare.NothingMissingWithoutRemote | spotify_comparer.py:92-99 | with no remote labels the result is empty |
| Compare.MissingMonotone | spotify_comparer.py:95 | lowering the threshold only removes labels: the lower-threshold result is the higher-threshold result filtered again, and is contained in it as a multiset |
| Compare.NothingMissingAtThresholdZero | spotify_comparer.py:95 | with non-negative scores, a threshold of at most 0 and a non-empty local list, nothing is missing |
| Compare.ExactLabelNeverMissing | spotify_comparer.py:94-95 | if a label scores 100 against itself and the threshold is at most 100, a remote label present verbatim locally is never missing |

## Left out

- Configuration, `.env` loading and OAuth client setup (spotify_comparer.py:23-45) are process setup with no logic to verify.
- Network calls are left out: `sp.playlist_items`, `sp.next`, `sp.me`, `sp.user_playlist_create`, `sp.search` and `sp.playlist_add_items`. The playlist's pages are an input sequence. Following the `next` link of a page means moving to the next page of that sequence. A link past the last given page ends the walk. Network and authentication failures, which stop the run, are not modelled.
- `create_missing_playlist` (spotify_comparer.py:104-125) is almost entirely remote calls and is not modelled. Its one local decision is at lines 106-108: an empty list of missing labels returns without creating a playlist.
- `os.walk` and `EasyID3` are file-system and library I/O. The walk is an input: a sequence of directories, each a sequence of file names, with the outcome of reading each file's tags. `os.walk` by default ignores an unreadable root and yields nothing. The program then returns an empty list, which is the model's empty walk.
- LocalTracks.Lower: folds only the letters A to Z, while Python's `str.lower` lowers every Unicode letter. In Unicode's case mappings, no character other than A to Z lowers to text containing a character of ".mp3", ".flac" or ".wav". The extension test therefore decides alike, but the model does not prove this.
- The internals of rapidfuzz are not modelled: `token_sort_ratio`, its preprocessing, and the early exit of `extractOne` at a perfect score. The scorer is a parameter. `ExtractOne` is modelled as returning the first of the tied best choices. The lemmas show that the choice among ties does not change the result.
- Scores are modelled as `real`, not as Python floats. A float score is compared with the threshold exactly as a real would be.
- A track entry that is an empty object is falsy in Python and would be skipped. Only a null entry is modelled as absent. Missing `name` or `track` keys would raise; the model does not represent them.
- Logging (spotify_comparer.py:35, 64, 84, 98, 107, 121-123) is a side effect with no functional content.
- The main block (spotify_comparer.py:130-134) only chains the four steps.
