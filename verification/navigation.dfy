/** The lists the browsing pages are built from (app.py): the breadcrumb
    trail of `index` and `get_folders`, the playlist and current index of
    `play` and `view`, and the order in which directory listings are sorted. */
module Navigation {
  import opened Text
  import opened Sorting
  import opened FileTypes

  /** One entry of a directory listing, as `iterdir` yields it; an entry that
      is not a directory is a file. `path` is the entry's path relative to the
      shared directory, with forward slashes. */
  datatype DirEntry = DirEntry(name: string, isDir: bool, path: string)

  /** One breadcrumb: a path component and the path up to and including it. */
  datatype Crumb = Crumb(name: string, path: string)

  /** One playlist entry. */
  datatype Track = Track(name: string, path: string)

  // ---------------------------------------------------------------- breadcrumbs

  /** The breadcrumb loop of `index` (and its copy in `get_folders`): entry `i`
      is named after part `i` and links to the first `i + 1` parts joined by "/". */
  method Breadcrumbs(parts: seq<string>) returns (crumbs: seq<Crumb>)
    ensures |crumbs| == |parts|
    ensures forall i :: 0 <= i < |parts| ==>
              crumbs[i].name == parts[i] && crumbs[i].path == Join("/", parts[..i + 1])
  {
    crumbs := [];
    for i := 0 to |parts|
      invariant |crumbs| == i
      invariant forall k :: 0 <= k < i ==>
                  crumbs[k].name == parts[k] && crumbs[k].path == Join("/", parts[..k + 1])
    {
      crumbs := crumbs + [Crumb(parts[i], Join("/", parts[..i + 1]))];
    }
  }

  /** Each breadcrumb's link extends the previous one by "/" and its own name,
      so every link is a prefix of every later one. */
  lemma BreadcrumbLinksNest(parts: seq<string>, crumbs: seq<Crumb>)
    requires |crumbs| == |parts|
    requires forall i :: 0 <= i < |parts| ==>
               crumbs[i].name == parts[i] && crumbs[i].path == Join("/", parts[..i + 1])
    ensures crumbs != [] ==> crumbs[0].path == parts[0]
    ensures forall i :: 0 < i < |crumbs| ==>
              crumbs[i].path == crumbs[i - 1].path + "/" + crumbs[i].name
    ensures forall i, j :: 0 <= i <= j < |crumbs| ==>
              |crumbs[i].path| <= |crumbs[j].path| &&
              crumbs[j].path[..|crumbs[i].path|] == crumbs[i].path
  {
    forall i | 0 < i < |crumbs|
      ensures crumbs[i].path == crumbs[i - 1].path + "/" + crumbs[i].name
    {
      JoinSnoc("/", parts, i);
    }
    forall i, j | 0 <= i <= j < |crumbs|
      ensures |crumbs[i].path| <= |crumbs[j].path| &&
              crumbs[j].path[..|crumbs[i].path|] == crumbs[i].path
    {
      JoinPrefix("/", parts, i + 1, j + 1);
    }
  }

  // ------------------------------------------------------------------ playlists

  /** Whether an entry goes into a playlist of the given kind. */
  predicate Playable(e: DirEntry, kind: FileKind)
  {
    !e.isDir && FileType(e.name) == kind
  }

  /** The playlist the loop of `play` / `view` builds: the listing's files of the
      requested kind, in listing order. */
  function PlaylistOf(listing: seq<DirEntry>, kind: FileKind): (p: seq<Track>)
    ensures |p| <= |listing|
  {
    if listing == [] then []
    else
      var last := listing[|listing| - 1];
      PlaylistOf(listing[..|listing| - 1], kind)
        + (if Playable(last, kind) then [Track(last.name, last.path)] else [])
  }

  /** The playlist holds exactly the playable entries of the listing. */
  lemma {:induction false} PlaylistMembers(listing: seq<DirEntry>, kind: FileKind)
    ensures forall t :: t in PlaylistOf(listing, kind) <==>
              exists e :: e in listing && Playable(e, kind) && t == Track(e.name, e.path)
  {
    if listing != [] {
      var init := listing[..|listing| - 1];
      PlaylistMembers(init, kind);
      assert listing == init + [listing[|listing| - 1]];
    }
  }

  /** Building the playlist distributes over concatenation of listings, so it
      keeps the listing's order. */
  lemma {:induction false} PlaylistConcat(a: seq<DirEntry>, b: seq<DirEntry>, kind: FileKind)
    ensures PlaylistOf(a + b, kind) == PlaylistOf(a, kind) + PlaylistOf(b, kind)
    decreases |b|
  {
    if b == [] {
      assert a + b == a;
    } else {
      var n := |b| - 1;
      PlaylistConcat(a, b[..n], kind);
      assert (a + b)[..|a + b| - 1] == a + b[..n];
    }
  }

  /** The position `current_index` ends at: that of the last entry whose path is
      `target`, or 0 when there is none. */
  function CurrentIndex(playlist: seq<Track>, target: string): (i: nat)
    ensures playlist != [] ==> i < |playlist|
    ensures i == 0 || (i < |playlist| && playlist[i].path == target)
  {
    if playlist == [] then 0
    else if playlist[|playlist| - 1].path == target then |playlist| - 1
    else CurrentIndex(playlist[..|playlist| - 1], target)
  }

  lemma {:induction false} CurrentIndexFinds(playlist: seq<Track>, target: string)
    ensures (exists j :: 0 <= j < |playlist| && playlist[j].path == target) ==>
              && CurrentIndex(playlist, target) < |playlist|
              && playlist[CurrentIndex(playlist, target)].path == target
              && forall j :: CurrentIndex(playlist, target) < j < |playlist| ==> playlist[j].path != target
    ensures (forall j :: 0 <= j < |playlist| ==> playlist[j].path != target) ==>
              CurrentIndex(playlist, target) == 0
  {
    if playlist != [] {
      var n := |playlist| - 1;
      var init := playlist[..n];
      CurrentIndexFinds(init, target);
      if playlist[n].path != target {
        assert forall j :: 0 <= j < n ==> init[j] == playlist[j];
      }
    }
  }

  lemma CurrentIndexStep(playlist: seq<Track>, t: Track, target: string)
    ensures CurrentIndex(playlist + [t], target) ==
              if t.path == target then |playlist| else CurrentIndex(playlist, target)
  {
    assert (playlist + [t])[..|playlist|] == playlist;
  }

  lemma PlaylistStep(listing: seq<DirEntry>, i: nat, kind: FileKind)
    requires i < |listing|
    ensures PlaylistOf(listing[..i + 1], kind) ==
              PlaylistOf(listing[..i], kind)
                + (if Playable(listing[i], kind) then [Track(listing[i].name, listing[i].path)] else [])
  {
    assert listing[..i + 1][..i] == listing[..i];
  }

  /** `play` and `view`: the playlist of the listing and the position of the
      requested file in it. */
  method BuildPlaylist(listing: seq<DirEntry>, target: string, kind: FileKind)
    returns (playlist: seq<Track>, currentIndex: nat)
    ensures playlist == PlaylistOf(listing, kind)
    ensures (exists j :: 0 <= j < |playlist| && playlist[j].path == target) ==>
              && currentIndex < |playlist|
              && playlist[currentIndex].path == target
              && forall j :: currentIndex < j < |playlist| ==> playlist[j].path != target
    ensures (forall j :: 0 <= j < |playlist| ==> playlist[j].path != target) ==> currentIndex == 0
  {
    playlist, currentIndex := CollectTracks(listing, target, kind);
    CurrentIndexFinds(playlist, target);
  }

  /** The loop of `play` and `view`: appends every playable entry and, when the
      appended entry is the requested file, records its position. */
  method CollectTracks(listing: seq<DirEntry>, target: string, kind: FileKind)
    returns (playlist: seq<Track>, currentIndex: nat)
    ensures playlist == PlaylistOf(listing, kind)
    ensures currentIndex == CurrentIndex(playlist, target)
  {
    playlist := [];
    currentIndex := 0;
    for i := 0 to |listing|
      invariant playlist == PlaylistOf(listing[..i], kind)
      invariant currentIndex == CurrentIndex(playlist, target)
    {
      var item := listing[i];
      PlaylistStep(listing, i, kind);
      // a file (not a directory) whose type is the requested one
      if Playable(item, kind) {
        CurrentIndexStep(playlist, Track(item.name, item.path), target);
        playlist := playlist + [Track(item.name, item.path)];
        if item.path == target {
          currentIndex := |playlist| - 1;
        }
      }
    }
    assert listing[..|listing|] == listing;
  }

  /** A property every name of a listing has, every name of its playlist has. */
  lemma {:induction false} PlaylistNamesFromListing(listing: seq<DirEntry>, kind: FileKind, ok: string -> bool)
    requires forall k :: 0 <= k < |listing| ==> ok(listing[k].name)
    ensures forall i :: 0 <= i < |PlaylistOf(listing, kind)| ==> ok(PlaylistOf(listing, kind)[i].name)
  {
    if listing != [] {
      PlaylistNamesFromListing(listing[..|listing| - 1], kind, ok);
    }
  }

  /** Built from a listing sorted by lower-cased name, as `play` and `view`
      build it, the playlist is in that order too. */
  lemma {:induction false} PlaylistSorted(listing: seq<DirEntry>, kind: FileKind)
    requires forall i, j :: 0 <= i < j < |listing| ==>
               LexLe(Lower(listing[i].name), Lower(listing[j].name))
    ensures forall i, j :: 0 <= i < j < |PlaylistOf(listing, kind)| ==>
              LexLe(Lower(PlaylistOf(listing, kind)[i].name), Lower(PlaylistOf(listing, kind)[j].name))
  {
    if listing != [] {
      var init := listing[..|listing| - 1];
      var bound := Lower(listing[|listing| - 1].name);
      PlaylistSorted(init, kind);
      PlaylistNamesFromListing(init, kind, name => LexLe(Lower(name), bound));
    }
  }

  /** When the requested file is itself in the listing with the requested kind,
      the current index points at it. */
  lemma RequestedFileIsCurrent(listing: seq<DirEntry>, kind: FileKind, e: DirEntry,
                               playlist: seq<Track>, currentIndex: nat)
    requires e in listing && Playable(e, kind)
    requires playlist == PlaylistOf(listing, kind)
    requires (exists j :: 0 <= j < |playlist| && playlist[j].path == e.path) ==>
               currentIndex < |playlist| && playlist[currentIndex].path == e.path
    ensures currentIndex < |playlist| && playlist[currentIndex].path == e.path
  {
    PlaylistMembers(listing, kind);
    var t := Track(e.name, e.path);
    assert t in playlist;
  }

  // ------------------------------------------------------------- listing order

  /** The sort key of `get_directory_contents`: directories before files, then
      the lower-cased name. */
  predicate ListingLe(a: DirEntry, b: DirEntry)
  {
    (a.isDir && !b.isDir) || (a.isDir == b.isDir && LexLe(Lower(a.name), Lower(b.name)))
  }

  /** The sort key of the playlist and folder listings: the lower-cased name. */
  predicate NameLe(a: DirEntry, b: DirEntry)
  {
    LexLe(Lower(a.name), Lower(b.name))
  }

  lemma ListingLeIsTotalPreorder()
    ensures Total(ListingLe) && Transitive(ListingLe)
  {
    forall a, b ensures ListingLe(a, b) || ListingLe(b, a) {
      LexLeTotal(Lower(a.name), Lower(b.name));
    }
    forall a, b, c | ListingLe(a, b) && ListingLe(b, c) ensures ListingLe(a, c) {
      if a.isDir == b.isDir == c.isDir {
        LexLeTransitive(Lower(a.name), Lower(b.name), Lower(c.name));
      }
    }
  }

  lemma NameLeIsTotalPreorder()
    ensures Total(NameLe) && Transitive(NameLe)
  {
    forall a, b ensures NameLe(a, b) || NameLe(b, a) {
      LexLeTotal(Lower(a.name), Lower(b.name));
    }
    forall a, b, c | NameLe(a, b) && NameLe(b, c) ensures NameLe(a, c) {
      LexLeTransitive(Lower(a.name), Lower(b.name), Lower(c.name));
    }
  }

  /** `sorted(path.iterdir(), key=lambda x: (not x.is_dir(), x.name.lower()))`:
      every directory comes before every file, names ascend case-insensitively
      within each group, and nothing is added or lost. */
  function SortListing(items: seq<DirEntry>): (r: seq<DirEntry>)
    ensures multiset(r) == multiset(items)
    ensures forall i, j :: 0 <= i < j < |r| && r[j].isDir ==> r[i].isDir
    ensures forall i, j :: 0 <= i < j < |r| && r[i].isDir == r[j].isDir ==>
              LexLe(Lower(r[i].name), Lower(r[j].name))
  {
    ListingLeIsTotalPreorder();
    SortBy(items, ListingLe)
  }

  /** `sorted(parent_dir.iterdir(), key=lambda x: x.name.lower())`. */
  function SortByName(items: seq<DirEntry>): (r: seq<DirEntry>)
    ensures multiset(r) == multiset(items)
    ensures forall i, j :: 0 <= i < j < |r| ==> LexLe(Lower(r[i].name), Lower(r[j].name))
  {
    NameLeIsTotalPreorder();
    SortBy(items, NameLe)
  }
}
