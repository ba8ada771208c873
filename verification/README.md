# File server core, modelled in Dafny

`app.py` is a small Flask server that shares one directory over HTTP. Users can
browse, play or view media, upload, rename, copy and move files, and delete them
into a recycle bin. This project models the parts of that server that decide
*what* happens, with the web framework and the disk taken out:

- **Filename sanitising** (`safe_filename`): module `Sanitize`. It has a
  specification function `SafeName` and a method `SafeFilename` that runs the
  same replace loop the source does.
- **File classification** (`get_file_type`, built on `Path.suffix`): module
  `FileTypes`.
- **Navigation lists**: module `Navigation`. It covers the breadcrumb trail of
  `index` / `get_folders`, the playlist and `current_index` of `play` / `view`,
  and the orders directory listings are sorted in.
- **Recycle bin**: module `RecycleBin`.
  - Class `Bin` holds three pieces of state:
    - the metadata table (`.metadata.json`), as a map from item id to record;
    - the names present in the bin directory, as a set;
    - a count of metadata writes.
  - Its methods model `add_to_recycle_bin`, `clean_old_items`, the listing of
    the `recycle_bin` page, `restore`, `permanent_delete` and
    `empty_recycle_bin`.
  - The stored name `id + suffix` is derived again at every lookup, as the
    source does.
- **Copy / move guard**: module `Transfer`. These are the checks `copy` and
  `move` make before touching the disk, including the rule that a directory may
  not go into itself.
- Supporting modules:
  - `Text`: ASCII `str.lower`, Python string order, `str.join`.
  - `Sorting`: `sorted()` for a total preorder, as a sorted permutation.

The disk, the clock and failures of file operations are inputs:

- The current time `now` is a parameter. Timestamps are whole seconds.
- The bin directory is the set `stored`.
- Whether deleting a stored item raises is given by the set `undeletable`.
- Whether a restore target is refused, already occupied, or the move raises is
  given by booleans.
- A fresh id from `uuid4` is an argument to `Add`. Its one property used here,
  that it contains no `.`, is a precondition and the class invariant `Valid()`.
  Because ids contain no dot, the id can be read back from a stored name
  (`IdOf`), so two records never share a stored name.

## Model

| member | source | states |
|---|---|---|
| Sanitize.RemoveChar | app.py:123-124 | `filename.replace(c, '')` leaves no `c` in the result |
| Sanitize.IsControl | app.py:127 | the regex class: code points 0x00-0x1f and 0x7f-0x9f |
| Sanitize.IsTrimmed | app.py:130 | the characters `strip('. ')` removes: the dot and the space |
| Sanitize.Without | app.py:121-124 | removing a list of characters leaves none of them, keeps every other character of the input, and is no longer than the input |
| Sanitize.WithoutAppend | app.py:121-124 | removal works on each part of a string separately, so the kept characters keep their order and number |
| Sanitize.RemoveCharExtends | app.py:123-124 | removing the reserved characters one at a time, as the loop does, equals removing all of them at once |
| Sanitize.DropControl | app.py:127 | the regex leaves no character in 0x00-0x1f or 0x7f-0x9f, keeps every other character of the input, and is no longer than the input |
| Sanitize.DropControlAppend | app.py:127 | the regex works on each part of a string separately, so the kept characters keep their order and number |
| Sanitize.TrimStart | app.py:130 | the leading half of `strip('. ')`: a tail of the input that does not start with a dot or space, with only dots and spaces before it |
| Sanitize.TrimEnd | app.py:130 | the trailing half of `strip('. ')`: a head of the input that does not end with a dot or space, with only dots and spaces after it |
| Sanitize.Strip | app.py:130 | `strip('. ')` is empty iff the input is only dots and spaces; otherwise it neither starts nor ends with one; it is the unbroken run of the input that starts right after the leading dots and spaces, and only dots and spaces follow it |
| Sanitize.Leading | app.py:130 | the count of leading dots and spaces: all of them are dots or spaces and the next character is not |
| Sanitize.Cleaned | app.py:121-130 | what is left after the replace loop, the regex and the strip, before the fallback |
| Sanitize.SafeName | app.py:114-136 | the result is never empty, has no reserved or control character, has no dot or space at either end, and is either "unnamed" or made of characters of the input |
| Sanitize.SafeNameKeepsMiddle | app.py:114-136 | around any character that is not reserved, a control character, a dot or a space, the result is what survives before it (less leading dots and spaces), that character, then what survives after it (less trailing ones): such characters are never lost and keep their order |
| Sanitize.SafeFilename | app.py:114-136 | the loop of `replace` calls, then the regex, the strip and the fallback, computes exactly `SafeName` |
| Sanitize.CleanIsFixed | app.py:114-136 | a name that is already clean comes out unchanged |
| Sanitize.SafeNameIdempotent | app.py:114-136 | sanitising twice gives the same result as sanitising once |
| Sanitize.FallbackExactly | app.py:127-134 | nothing is left before the fallback iff every input character is reserved, a control character, a dot or a space |
| Sanitize.RenameNameNeverEmpty | app.py:585-588 | the "invalid name" rejection of `rename` after sanitising can never trigger |
| FileTypes.LastDot | app.py:90 | the index of the last `.` of a name, with no dot after it, or -1 |
| FileTypes.Suffix | app.py:90 | `Path.suffix` is empty or starts with `.` |
| FileTypes.SuffixShape | app.py:90 | a non-empty suffix is a proper tail of the name, at least two characters, with its only dot first; an empty suffix means every inner dot is followed by another dot |
| FileTypes.FileType | app.py:88-111 | each category is given only when the lower-cased suffix is in that category's list; "other" is given iff it is in none |
| FileTypes.SuffixLower | app.py:90 | lower-casing commutes with taking the suffix |
| FileTypes.FileTypeCaseInsensitive | app.py:90 | names equal up to letter case get the same category |
| FileTypes.OggIsAudio | app.py:93-100 | ".ogg", listed as both audio and video, is classified audio |
| FileTypes.VideoExactly | app.py:93-101 | video is given exactly to the video extensions that are not audio ones |
| FileTypes.NoSuffixIsOther | app.py:90-111 | a name with no suffix (a dot-file, or one ending in a dot) is "other" |
| Navigation.Breadcrumbs | app.py:305-311 | one crumb per part; crumb `i` is named `parts[i]` and links to the first `i+1` parts joined by "/" (also app.py:636-643) |
| Navigation.BreadcrumbLinksNest | app.py:305-311 | the first link is the first part; each link is the previous link, "/" and its own name; every link is a prefix of every later one |
| Navigation.BuildPlaylist | app.py:348-362 | the playlist is `PlaylistOf` the listing; if the requested file is in it, `current_index` points at its last occurrence; otherwise it is 0 (also app.py:391-405) |
| Navigation.CollectTracks | app.py:352-362 | the loop appends exactly the playable entries in order and leaves `current_index` at `CurrentIndex` of the playlist |
| Navigation.PlaylistOf | app.py:352-360 | the playlist is no longer than the listing (membership and order: the two rows below) |
| Navigation.Playable | app.py:353-355 | an entry goes into the playlist when it is a file (not a directory) of the requested type |
| Navigation.PlaylistMembers | app.py:352-360 | a track is in the playlist iff it comes from a file of the listing of the requested type |
| Navigation.PlaylistConcat | app.py:352-360 | the playlist of a concatenated listing is the concatenation of the playlists, so listing order is kept |
| Navigation.CurrentIndex | app.py:361-362 | inside the playlist when that is non-empty; either 0 or the index of an entry whose path is the requested one |
| Navigation.CurrentIndexFinds | app.py:361-362 | the recorded index is the last one whose path is the target, or 0 when none is |
| Navigation.PlaylistNamesFromListing | app.py:352-360 | any property of all listing names holds for all playlist names |
| Navigation.PlaylistSorted | app.py:352 | built from a listing sorted by lower-cased name, the playlist is sorted the same way |
| Navigation.RequestedFileIsCurrent | app.py:348-362 | when the requested file is a listed file of the requested type, the playlist entry at `current_index` is that file |
| Navigation.ListingLe | app.py:64 | the order of the key `(not is_dir, name.lower())`: directories first, then lower-cased names |
| Navigation.NameLe | app.py:352 | the order of the key `name.lower()` |
| Navigation.ListingLeIsTotalPreorder | app.py:64 | the key "directories first, then lower-cased name" is a total preorder |
| Navigation.NameLeIsTotalPreorder | app.py:352 | the key "lower-cased name" is a total preorder |
| Navigation.SortListing | app.py:64 | the listing is a permutation of the directory; every directory comes before every file; names ascend case-insensitively within each group |
| Navigation.SortByName | app.py:352 | the play/view listing is a permutation sorted by lower-cased name |
| Sorting.SortBy | app.py:64 | `sorted()` returns a permutation of its input that is ordered by the key |
| Text.Lower | app.py:64 | `str.lower` keeps the length and lower-cases each character |
| Text.LowerIdempotent | app.py:90 | lower-casing twice is lower-casing once |
| Text.LexLe | app.py:64 | Python's `<=` on `str`: code point by code point, a prefix first |
| Text.LexLeTotal | app.py:64 | any two strings are comparable |
| Text.LexLeTransitive | app.py:64 | string order is transitive |
| Text.Join | app.py:310 | `"/".join(parts)` starts with the first part |
| Text.JoinSnoc | app.py:310 | joining one more part appends the separator and that part |
| Text.JoinPrefix | app.py:310 | the join of fewer parts is a prefix of the join of more parts |
| RecycleBin.DaysLeft | app.py:766-775 | days left is 0 iff the item is at least RECYCLE_DAYS old; otherwise it plus the age is RECYCLE_DAYS; it is at most RECYCLE_DAYS for a non-negative age |
| RecycleBin.AgeDays | app.py:232 | `timedelta.days`: the whole days elapsed, rounded down, so `d` days are at most the elapsed seconds and `d + 1` days exceed them (also app.py:766) |
| RecycleBin.IdOf | app.py:189-190 | the text before the first dot of a stored name is dot-free and a prefix of it |
| RecycleBin.StoredName | app.py:189-190 | the stored name starts with the id; for a directory it is the id alone; otherwise what follows the id starts with a dot (also app.py:236-237, 761-762, 801-802, 847-848, 878-879) |
| RecycleBin.StoredNameRoundTrip | app.py:189-190 | the id is recovered from the name `id + suffix` it was stored under |
| RecycleBin.StoredNameFresh | app.py:236-237 | no other record's stored name equals a given record's stored name |
| RecycleBin.Removable | app.py:239-246 | the stored item of a record exists and deleting it does not raise (also app.py:881-888) |
| RecycleBin.Deletable | app.py:881-888 | the ids whose stored item exists and deletes without error; all are ids of the table |
| RecycleBin.Expired | app.py:234-246 | every expired id is deletable and at least RECYCLE_DAYS old (the converse: CleanStep) |
| RecycleBin.DropRecords | app.py:251-252 | deleting the collected ids from the table one by one removes exactly those keys |
| RecycleBin.CleanStep | app.py:231-246 | one turn of the sweep: an item is collected iff it is expired, exists and deletes, and deleting it removes only its own stored name |
| RecycleBin.EmptyStep | app.py:877-888 | one turn of the emptying loop: an item is counted iff it exists and deletes, and deleting it removes only its own stored name |
| RecycleBin.EmptyAdvance | app.py:877-888 | after one turn of the emptying loop, the deleted ids so far are the deletable ids already visited, their count grows by one exactly when the current item is deleted, and the bin directory has lost exactly their stored names |
| RecycleBin.ShownIds | app.py:760-764 | the ids the page shows, those whose stored item exists; all are ids of the table |
| RecycleBin.ShownStep | app.py:758-776 | one turn of the page loop adds a row iff the record's stored item exists |
| RecycleBin.PermutationKeepsIds | app.py:780 | sorting the rows keeps the rows and their ids |
| RecycleBin.EntryOf | app.py:768-777 | a row carries the id, name, original path, directory flag, size and deletion time of its record; its days left is `DaysLeft` of its age, 0 iff the item is at least RECYCLE_DAYS old; its file type is that of the original name, and none iff it is a directory |
| RecycleBin.NewerOrSame | app.py:780 | the page order: the later deletion first |
| RecycleBin.Bin.Add | app.py:188-205 | the item is stored as `id + suffix` (bare id for a directory), the record is added under `id`, and the table is written once |
| RecycleBin.Bin.DeleteExpired | app.py:228-249 | the collected ids are exactly the expired, present, deletable records, and exactly their stored items are gone |
| RecycleBin.Bin.CleanOldItems | app.py:222-257 | removes exactly the expired records whose item existed and deleted; other records are unchanged; returns how many; writes the table only when that is positive |
| RecycleBin.Bin.Restore | app.py:785-828 | 400 iff no id; 404 iff the id is unknown or its item is missing; once the item is there, 500 iff the target is refused or the move raises, 400 iff the target is not refused and already exists; on success exactly that record and that item are removed and the table is written; otherwise nothing changes |
| RecycleBin.Bin.PermanentDelete | app.py:831-864 | 400 without id, 404 for an unknown id, 500 iff the present item fails to delete; otherwise exactly that record is removed, even if its item was already gone |
| RecycleBin.Bin.EmptyRecycleBin | app.py:867-897 | every present, deletable stored item is removed and counted; the table is written empty, dropping also records whose deletion failed |
| RecycleBin.Bin.DeleteAll | app.py:877-888 | the loop removes exactly the present, deletable stored items and counts them; the table is left as it is |
| RecycleBin.Bin.Shown | app.py:760-764 | the ids the page shows for the current table and bin directory |
| RecycleBin.Bin.CollectRows | app.py:758-776 | one row per record whose stored item exists, each row built from its record |
| RecycleBin.Bin.Listing | app.py:756-780 | the page rows are the present records, each with its days left and type, newest deletion first |
| RecycleBin.ShownAfterCleanHaveDaysLeft | app.py:752-775 | the sweep reads the clock (app.py:226) no later than the page does (app.py:766); a row then shown with 0 days left belongs to an item whose deletion failed, or to one that reached RECYCLE_DAYS between the two readings |
| RecycleBin.ShownAtCleanTimeHaveDaysLeft | app.py:752-775 | when both readings of the clock agree, a row with 0 days left belongs to an item whose deletion failed |
| RecycleBin.ClockBetweenSweepAndPage | app.py:226-234 | a one-item bin whose deletion would not fail meets the conditions of `ShownAfterCleanHaveDaysLeft` for a sweep one second before the item's thirtieth day; the page a second later shows it with 0 days left, and only the between-readings case explains it (also app.py:766) |
| Transfer.Name | app.py:676 | `Path.name` is the last component |
| Transfer.Child | app.py:676 | `dir / name` appends one component, or none for an empty name |
| Transfer.IsRelativeTo | app.py:684 | `is_relative_to`: the base is the path or one of its ancestors, component by component |
| Transfer.CheckTransfer | app.py:660-689 | each reply is given exactly when the checks before it pass and its own fails: 400 without a source, 404 for a missing source, 400 when the destination is not a directory, 400 when the name is taken there, 400 for a directory into itself; it proceeds, at `dest_dir / source.name`, iff all pass (also app.py:708-737) |
| Transfer.ChildRelativeTo | app.py:676-684 | the target is inside the source iff the destination directory is inside the source or the target is the source |
| Transfer.NeverIntoItself | app.py:684-685 | a directory is never copied or moved into itself or one of its subdirectories |
| Transfer.IntoItselfExactly | app.py:684-685 | the guard fires iff the earlier checks pass and the source is a directory containing the destination directory |
| Transfer.StartsWithAsText | app.py:688 | `str.startswith`: the text begins with the other text |
| Transfer.PathText | app.py:688 | `str()` of an absolute path: "/" for the root; every path text starts with "/" |
| Transfer.TextGuardOverRefuses | app.py:687-689 | the string fallback refuses moving "/srv/ab" into "/srv/abc", which is not inside it |

## Findings

| source | as written | input that shows it | evidently intended | confidence | as-written member | corrected member |
|---|---|---|---|---|---|---|
| app.py:687-689 (also 735-737) | on Pythons without `is_relative_to`, the self-containment test is `str(dest).startswith(str(source))` | source directory `/srv/ab`, destination directory `/srv/abc`: the target `/srv/abc/ab` starts with `/srv/ab`, so the request is refused | refuse only when the target is the source or lies below it, component by component | medium; the branch is reached only on Python 3.8 and older; not executed | Transfer.TextGuardOverRefuses | Transfer.NeverIntoItself |

## Left out

- Flask routing, sessions, login and password hashing are not modelled.
  They are framework plumbing.
- `get_safe_path` is not modelled. Its result depends on `resolve()`
  following symbolic links. Resolved paths are inputs to `Transfer.CheckTransfer`,
  and a refused restore target is the `unsafeTarget` input of
  `RecycleBin.Bin.Restore`. Such a refusal ends in 500: the `abort(403)` is
  raised inside the `try` and caught by `except Exception`.
- The file operations are not modelled: `shutil.move`, `copy2`, `copytree`,
  `rmtree`, `unlink`, `mkdir`, `stat` and `iterdir`. The bin directory is a set
  of names. Listings are given as sequences of entries. Only the checks before
  a copy or move are modelled, not the copy or move itself.
- Reading and writing `.metadata.json` is the `metadata` field and the `saves`
  counter. A corrupt file, which `load_metadata` reads as an empty table, is
  not modelled. Neither is a failed write.
- `format_size`, the upload loop and its timing figures, and the startup code
  are not modelled. They are floating point, stream I/O and console output.
- `uuid4` and `datetime.now()` are not modelled. The id and `now` are
  arguments.
  - Timestamps are whole seconds, so microseconds in the stored ISO time are
    ignored in the age.
  - `Listing` orders rows by the deletion time. The source sorts the
    formatted text `YYYY-mm-dd HH:MM:SS`, which gives the same order at
    one-second resolution.
- RecycleBin.Bin.CollectRows: every row of one page is aged at the single
  `now` it is given. The source reads the clock anew for each row, so rows
  of one page can be aged at slightly different instants. The same holds
  for `RecycleBin.Bin.Listing`, which is built on it.
- Text.Lower: only ASCII letters are lower-cased. Python's `str.lower` also
  maps other letters.
- FileTypes.Suffix: it is computed on a single path component. That is what
  `Path.suffix` uses.
- RecycleBin.Bin.Add: the suffix is chosen by "not a directory", while the
  source asks `is_file()`. The two differ only for special files, which are
  not modelled.
- Navigation.Playable: an entry counts as a file when it is not a directory.
  The source asks `is_file()`, which also leaves out broken symbolic links,
  fifos and other special files; the model has no such entries.
- Navigation.BuildPlaylist: the requested file is matched by its relative path.
  The source compares the absolute `Path` objects, which identify the same
  entry.
- Sorting.SortBy: the result is stated to be a sorted permutation. Python's
  sort is also stable, and the order among equal keys is not stated.
- The order in which records are visited (dict insertion order) is not
  modelled. No result above depends on it except the order of equal keys on
  the recycle-bin page.
