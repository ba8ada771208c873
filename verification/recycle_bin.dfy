/** The recycle bin of the file server (app.py): a metadata table
    `.metadata.json` mapping an item id to what was deleted, and a directory
    holding each deleted item under the name `id + suffix`. The directory is
    modelled by the set of names present in it; whether deleting or moving a
    stored item raises is given by the caller, as is the current time. */
module RecycleBin {
  import opened FileTypes
  import opened Sorting

  /** Days an item is kept before `clean_old_items` deletes it. */
  const RecycleDays: int := 30
  const SecondsPerDay: int := 86400

  datatype Option<T> = None | Some(value: T)

  /** One record of the metadata table. `deletedAt` is the deletion time in
      whole seconds on the same clock as the `now` the operations are given. */
  datatype Info = Info(originalName: string, originalPath: string, deletedAt: int, isDir: bool, size: nat)

  /** The reply of `restore` and `permanent_delete`. */
  datatype Outcome =
    | Done         // 200
    | MissingId    // 400: no item id in the request
    | UnknownId    // 404: the id is not in the metadata
    | FileMissing  // 404: the stored item is not in the bin directory
    | Occupied     // 400: something already exists at the original path
    | Failed       // 500: the file operation raised

  /** `(now - deleted_time).days`: whole days elapsed, rounded down as
      `timedelta.days` is. */
  function AgeDays(now: int, deletedAt: int): (d: int)
    ensures d * SecondsPerDay <= now - deletedAt < (d + 1) * SecondsPerDay
  {
    (now - deletedAt) / SecondsPerDay
  }

  /** `max(0, RECYCLE_DAYS - age)` shown on the recycle-bin page. */
  function DaysLeft(now: int, deletedAt: int): (r: nat)
    ensures r == 0 <==> AgeDays(now, deletedAt) >= RecycleDays
    ensures r > 0 ==> r + AgeDays(now, deletedAt) == RecycleDays
    ensures AgeDays(now, deletedAt) >= 0 ==> r <= RecycleDays
  {
    var left := RecycleDays - AgeDays(now, deletedAt);
    if left > 0 then left else 0
  }

  /** The name an item is looked up under in the bin directory: its id followed
      by the suffix of its original name, or the bare id for a directory. */
  function StoredName(id: string, info: Info): (name: string)
    ensures |id| <= |name| && name[..|id|] == id
    ensures info.isDir ==> name == id
    ensures |id| < |name| ==> name[|id|] == '.'
  {
    id + (if info.isDir then "" else Suffix(info.originalName))
  }

  /** The id a stored name belongs to: everything before its first dot. */
  function IdOf(stored: string): (id: string)
    ensures |id| <= |stored| && id == stored[..|id|]
    ensures '.' !in id
    ensures |id| < |stored| ==> stored[|id|] == '.'
  {
    if stored == [] || stored[0] == '.' then [] else [stored[0]] + IdOf(stored[1..])
  }

  lemma {:induction false} IdOfDotted(id: string, ext: string)
    requires '.' !in id
    requires ext == [] || ext[0] == '.'
    ensures IdOf(id + ext) == id
  {
    if id != [] {
      assert (id + ext)[1..] == id[1..] + ext;
      IdOfDotted(id[1..], ext);
    }
  }

  /** An id without dots is recovered from its stored name, so two different
      ids never share a stored name. */
  lemma StoredNameRoundTrip(id: string, info: Info)
    requires '.' !in id
    ensures IdOf(StoredName(id, info)) == id
  {
    IdOfDotted(id, if info.isDir then "" else Suffix(info.originalName));
  }

  /** The stored item of `id` is in the bin directory and deleting it does not raise. */
  predicate Removable(md: map<string, Info>, stored: set<string>, undeletable: set<string>, id: string)
    requires id in md
  {
    StoredName(id, md[id]) in stored && StoredName(id, md[id]) !in undeletable
  }

  /** The ids whose stored item exists and can be deleted. */
  function Deletable(md: map<string, Info>, stored: set<string>, undeletable: set<string>): (ids: set<string>)
    ensures ids <= md.Keys
  {
    set id | id in md && Removable(md, stored, undeletable, id)
  }

  /** The ids `clean_old_items` removes: kept for at least RECYCLE_DAYS days,
      present in the bin directory, and deleted without an error. */
  function Expired(md: map<string, Info>, stored: set<string>, undeletable: set<string>, now: int): (ids: set<string>)
    ensures ids <= Deletable(md, stored, undeletable)
    ensures forall id :: id in ids ==> AgeDays(now, md[id].deletedAt) >= RecycleDays
  {
    set id | id in md && Removable(md, stored, undeletable, id) && AgeDays(now, md[id].deletedAt) >= RecycleDays
  }

  function StoredNames(md: map<string, Info>, ids: set<string>): set<string>
    requires ids <= md.Keys
  {
    set id | id in ids :: StoredName(id, md[id])
  }

  ghost predicate DotFreeIds(md: map<string, Info>)
  {
    forall id :: id in md ==> '.' !in id
  }

  /** The stored name of an item is not the stored name of any other item. */
  lemma StoredNameFresh(md: map<string, Info>, ids: set<string>, id: string)
    requires DotFreeIds(md) && ids <= md.Keys && id in md && id !in ids
    ensures StoredName(id, md[id]) !in StoredNames(md, ids)
  {
    if StoredName(id, md[id]) in StoredNames(md, ids) {
      var other :| other in ids && StoredName(other, md[other]) == StoredName(id, md[id]);
      StoredNameRoundTrip(other, md[other]);
      StoredNameRoundTrip(id, md[id]);
    }
  }

  lemma StoredNamesAdd(md: map<string, Info>, ids: set<string>, id: string)
    requires ids <= md.Keys && id in md
    ensures StoredNames(md, ids + {id}) == StoredNames(md, ids) + {StoredName(id, md[id])}
  {
  }

  /** One turn of the first loop of `clean_old_items`: the item under
      consideration is expired exactly when the loop deletes it, and deleting
      it removes its own stored name and no other. */
  lemma CleanStep(md: map<string, Info>, st0: set<string>, undeletable: set<string>, now: int,
                  pending: set<string>, id: string)
    requires DotFreeIds(md) && pending <= md.Keys && id in pending
    ensures var gone := Expired(md, st0, undeletable, now);
            var done := gone - pending;
            var name := StoredName(id, md[id]);
            && (name in st0 - StoredNames(md, done) <==> name in st0)
            && (id in gone <==> AgeDays(now, md[id].deletedAt) >= RecycleDays && name in st0 && name !in undeletable)
            && gone - (pending - {id}) == (if id in gone then done + {id} else done)
            && StoredNames(md, done + {id}) == StoredNames(md, done) + {name}
  {
    var gone := Expired(md, st0, undeletable, now);
    StoredNameFresh(md, gone - pending, id);
    StoredNamesAdd(md, gone - pending, id);
  }

  /** The ids whose stored item is in the bin directory. */
  function ShownIds(md: map<string, Info>, stored: set<string>): (ids: set<string>)
    ensures ids <= md.Keys
  {
    set id | id in md && StoredName(id, md[id]) in stored
  }

  /** One turn of the loop that builds the recycle-bin rows: the visited part
      of the shown ids grows by the current id exactly when its item exists. */
  lemma ShownStep(md: map<string, Info>, stored: set<string>, pending: set<string>, id: string)
    requires id in pending && pending <= md.Keys
    ensures var shown := ShownIds(md, stored);
            && id !in shown - pending
            && shown - (pending - {id}) ==
                 (if StoredName(id, md[id]) in stored then (shown - pending) + {id} else shown - pending)
            && |shown - (pending - {id})| ==
                 |shown - pending| + (if StoredName(id, md[id]) in stored then 1 else 0)
  {
    var shown := ShownIds(md, stored);
    if StoredName(id, md[id]) in stored {
      assert shown - (pending - {id}) == (shown - pending) + {id};
    } else {
      assert shown - (pending - {id}) == shown - pending;
    }
  }

  /** One turn of the loop of `empty_recycle_bin`: the item under
      consideration is deletable exactly when the loop deletes and counts it,
      and deleting it removes its own stored name and no other. */
  lemma EmptyStep(md: map<string, Info>, st0: set<string>, undeletable: set<string>,
                  pending: set<string>, id: string)
    requires DotFreeIds(md) && pending <= md.Keys && id in pending
    ensures var target := Deletable(md, st0, undeletable);
            var done := target - pending;
            var name := StoredName(id, md[id]);
            && (name in st0 - StoredNames(md, done) <==> name in st0)
            && (id in target <==> name in st0 && name !in undeletable)
            && target - (pending - {id}) == (if id in target then done + {id} else done)
            && |target - (pending - {id})| == |done| + (if id in target then 1 else 0)
            && StoredNames(md, done + {id}) == StoredNames(md, done) + {name}
  {
    var target := Deletable(md, st0, undeletable);
    StoredNameFresh(md, target - pending, id);
    StoredNamesAdd(md, target - pending, id);
    if id in target {
      assert target - (pending - {id}) == (target - pending) + {id};
    } else {
      assert target - (pending - {id}) == target - pending;
    }
  }

  /** The loop state of `empty_recycle_bin` after one turn: `cur` is the bin
      directory so far and `done` the ids deleted so far. */
  lemma EmptyAdvance(md: map<string, Info>, st0: set<string>, undeletable: set<string>,
                     pending: set<string>, id: string, done: set<string>, cur: set<string>)
    requires DotFreeIds(md) && pending <= md.Keys && id in pending
    requires done == Deletable(md, st0, undeletable) - pending
    requires cur == st0 - StoredNames(md, done)
    ensures StoredName(id, md[id]) in cur && StoredName(id, md[id]) !in undeletable ==>
              && done + {id} == Deletable(md, st0, undeletable) - (pending - {id})
              && |done + {id}| == |done| + 1
              && cur - {StoredName(id, md[id])} == st0 - StoredNames(md, done + {id})
    ensures !(StoredName(id, md[id]) in cur && StoredName(id, md[id]) !in undeletable) ==>
              done == Deletable(md, st0, undeletable) - (pending - {id})
  {
    EmptyStep(md, st0, undeletable, pending, id);
  }

  /** One row of the recycle-bin page. */
  datatype BinEntry = BinEntry(id: string, name: string, originalPath: string, isDir: bool,
                               size: nat, deletedAt: int, daysLeft: nat, fileType: Option<FileKind>)

  /** The ids the rows of a page belong to. */
  function IdsOf(rows: seq<BinEntry>): (ids: set<string>)
    ensures forall k :: 0 <= k < |rows| ==> rows[k].id in ids
  {
    set e | e in rows :: e.id
  }

  lemma IdsOfAppend(rows: seq<BinEntry>, e: BinEntry)
    ensures IdsOf(rows + [e]) == IdsOf(rows) + {e.id}
  {
    assert forall x :: x in rows + [e] <==> x in rows || x == e;
  }

  /** Every row is the one its record gives. */
  ghost predicate RowsOf(md: map<string, Info>, now: int, rows: seq<BinEntry>)
  {
    forall k :: 0 <= k < |rows| ==> rows[k].id in md && rows[k] == EntryOf(rows[k].id, md[rows[k].id], now)
  }

  lemma RowsOfAppend(md: map<string, Info>, now: int, rows: seq<BinEntry>, id: string)
    requires RowsOf(md, now, rows) && id in md
    ensures RowsOf(md, now, rows + [EntryOf(id, md[id], now)])
  {
  }

  /** Reordering the rows keeps the rows, hence their ids. */
  lemma PermutationKeepsIds(a: seq<BinEntry>, b: seq<BinEntry>)
    requires multiset(a) == multiset(b)
    ensures IdsOf(a) == IdsOf(b) && |a| == |b|
    ensures forall k :: 0 <= k < |b| ==> b[k] in a
  {
    assert |a| == |multiset(a)|;
    forall e ensures e in a <==> e in b {
      assert e in a <==> e in multiset(a);
    }
  }

  function EntryOf(id: string, info: Info, now: int): (e: BinEntry)
    ensures e.id == id && e.name == info.originalName && e.deletedAt == info.deletedAt
    ensures e.daysLeft == 0 <==> AgeDays(now, info.deletedAt) >= RecycleDays
    ensures e.fileType == None <==> info.isDir
    ensures e.daysLeft == DaysLeft(now, info.deletedAt)
    ensures e.fileType == (if info.isDir then None else Some(FileType(info.originalName)))
    ensures e.originalPath == info.originalPath && e.isDir == info.isDir && e.size == info.size
  {
    BinEntry(id, info.originalName, info.originalPath, info.isDir, info.size, info.deletedAt,
             DaysLeft(now, info.deletedAt),
             if info.isDir then None else Some(FileType(info.originalName)))
  }

  /** The sort of the recycle-bin page: newest deletion first. */
  predicate NewerOrSame(a: BinEntry, b: BinEntry)
  {
    a.deletedAt >= b.deletedAt
  }

  lemma NewerOrSameIsTotalPreorder()
    ensures Total(NewerOrSame) && Transitive(NewerOrSame)
  {
  }

  /** The second loop of `clean_old_items`: `del metadata[item_id]` for each
      id collected by the first loop. */
  method DropRecords(md: map<string, Info>, ids: set<string>) returns (r: map<string, Info>)
    ensures r == md - ids
  {
    r := md;
    var rest := ids;
    while rest != {}
      invariant rest <= ids
      invariant r == md - (ids - rest)
      decreases rest
    {
      var id :| id in rest;
      r := r - {id};
      rest := rest - {id};
    }
  }

  class Bin {
    /** The contents of `.metadata.json`. */
    var metadata: map<string, Info>
    /** The names present in the bin directory. */
    var stored: set<string>
    /** How many times the metadata file has been written. */
    var saves: nat

    /** Every id was made by `uuid4`, whose text has no dot. */
    ghost predicate Valid()
      reads this
    {
      DotFreeIds(metadata)
    }

    constructor ()
      ensures Valid()
      ensures metadata == map[] && stored == {} && saves == 0
    {
      metadata := map[];
      stored := {};
      saves := 0;
    }

    /** `add_to_recycle_bin`: moves the item into the bin under `id + suffix`
        (no suffix for a directory) and records it; a later lookup of the
        record finds the item under the name it was stored as. */
    method Add(id: string, itemName: string, originalPath: string, isDir: bool, size: nat, now: int)
      requires Valid()
      requires '.' !in id
      modifies this
      ensures Valid()
      ensures metadata == old(metadata)[id := Info(itemName, originalPath, now, isDir, size)]
      ensures stored == old(stored) + {StoredName(id, metadata[id])}
      ensures saves == old(saves) + 1
    {
      var ext := if isDir then "" else Suffix(itemName);
      var newName := id + ext;
      stored := stored + {newName};
      metadata := metadata[id := Info(itemName, originalPath, now, isDir, size)];
      saves := saves + 1;
    }

    /** The first loop of `clean_old_items`: goes through the records and
        deletes the stored item of each one that is at least RECYCLE_DAYS days
        old, collecting the ids whose deletion succeeded. */
    method DeleteExpired(now: int, undeletable: set<string>) returns (itemsToRemove: set<string>)
      requires Valid()
      modifies this`stored
      ensures itemsToRemove == Expired(metadata, old(stored), undeletable, now)
      ensures stored == old(stored) - StoredNames(metadata, itemsToRemove)
    {
      ghost var gone := Expired(metadata, stored, undeletable, now);
      itemsToRemove := {};
      var pending := metadata.Keys;
      while pending != {}
        invariant pending <= metadata.Keys
        invariant itemsToRemove == gone - pending
        invariant stored == old(stored) - StoredNames(metadata, itemsToRemove)
        decreases pending
      {
        var id :| id in pending;
        var info := metadata[id];
        CleanStep(metadata, old(stored), undeletable, now, pending, id);
        if AgeDays(now, info.deletedAt) >= RecycleDays {
          var itemPath := StoredName(id, info);
          if itemPath in stored {
            if itemPath !in undeletable {
              stored := stored - {itemPath};
              itemsToRemove := itemsToRemove + {id};
            }
          }
        }
        pending := pending - {id};
      }
    }

    /** `clean_old_items`: deletes every expired item it can and drops exactly
        those records; the metadata is written only when something was removed. */
    method CleanOldItems(now: int, undeletable: set<string>) returns (removed: nat)
      requires Valid()
      modifies this
      ensures Valid()
      ensures metadata == old(metadata) - Expired(old(metadata), old(stored), undeletable, now)
      ensures stored == old(stored) - StoredNames(old(metadata), Expired(old(metadata), old(stored), undeletable, now))
      ensures removed == |Expired(old(metadata), old(stored), undeletable, now)|
      ensures saves == old(saves) + (if removed > 0 then 1 else 0)
    {
      var md := metadata;  // load_metadata()
      var itemsToRemove := DeleteExpired(now, undeletable);
      md := DropRecords(md, itemsToRemove);
      assert DotFreeIds(md);
      if itemsToRemove != {} {
        metadata := md;  // save_metadata(metadata)
        saves := saves + 1;
      }
      removed := |itemsToRemove|;
    }

    /** `restore`: moves a stored item back to its original path and drops its
        record; every rejection leaves the bin as it was. The caller says
        whether the original path is refused as unsafe, whether something
        already exists there, and whether the move raises. */
    method Restore(id: string, unsafeTarget: bool, occupied: bool, moveFails: bool) returns (o: Outcome)
      requires Valid()
      modifies this
      ensures Valid()
      ensures o == MissingId <==> id == ""
      ensures o == UnknownId <==> id != "" && id !in old(metadata)
      ensures o == FileMissing <==>
                id != "" && id in old(metadata) && StoredName(id, old(metadata)[id]) !in old(stored)
      ensures o == Done <==>
                && id != "" && id in old(metadata) && StoredName(id, old(metadata)[id]) in old(stored)
                && !unsafeTarget && !occupied && !moveFails
      ensures o == Occupied <==>
                && id != "" && id in old(metadata) && StoredName(id, old(metadata)[id]) in old(stored)
                && !unsafeTarget && occupied
      ensures o == Failed <==>
                && id != "" && id in old(metadata) && StoredName(id, old(metadata)[id]) in old(stored)
                && (unsafeTarget || (!occupied && moveFails))
      ensures o == Done ==>
                && metadata == old(metadata) - {id}
                && stored == old(stored) - {StoredName(id, old(metadata)[id])}
                && saves == old(saves) + 1
      ensures o != Done ==> metadata == old(metadata) && stored == old(stored) && saves == old(saves)
    {
      if id == "" {
        return MissingId;
      }
      if id !in metadata {
        return UnknownId;
      }
      var info := metadata[id];
      var itemPath := StoredName(id, info);
      if itemPath !in stored {
        return FileMissing;
      }
      if unsafeTarget {
        return Failed;
      }
      if occupied {
        return Occupied;
      }
      if moveFails {
        return Failed;
      }
      stored := stored - {itemPath};
      metadata := metadata - {id};
      saves := saves + 1;
      o := Done;
    }

    /** `permanent_delete`: deletes the stored item if it is present and drops
        its record, even when the item was already gone; if the deletion raises
        the record stays. */
    method PermanentDelete(id: string, undeletable: set<string>) returns (o: Outcome)
      requires Valid()
      modifies this
      ensures Valid()
      ensures o == MissingId <==> id == ""
      ensures o == UnknownId <==> id != "" && id !in old(metadata)
      ensures o == Failed <==>
                && id != "" && id in old(metadata)
                && StoredName(id, old(metadata)[id]) in old(stored)
                && StoredName(id, old(metadata)[id]) in undeletable
      ensures o in {Done, MissingId, UnknownId, Failed}
      ensures o == Done ==>
                && metadata == old(metadata) - {id}
                && stored == old(stored) - {StoredName(id, old(metadata)[id])}
                && saves == old(saves) + 1
      ensures o != Done ==> metadata == old(metadata) && stored == old(stored) && saves == old(saves)
    {
      if id == "" {
        return MissingId;
      }
      if id !in metadata {
        return UnknownId;
      }
      var info := metadata[id];
      var itemPath := StoredName(id, info);
      if itemPath in stored {
        if itemPath in undeletable {
          return Failed;
        }
        stored := stored - {itemPath};
      }
      metadata := metadata - {id};
      saves := saves + 1;
      o := Done;
    }

    /** `empty_recycle_bin`: deletes every stored item it can, counts the
        deletions, and then writes an empty table, forgetting also the items
        whose deletion failed. */
    method EmptyRecycleBin(undeletable: set<string>) returns (deletedCount: nat)
      requires Valid()
      modifies this
      ensures Valid()
      ensures metadata == map[]
      ensures stored == old(stored) - StoredNames(old(metadata), Deletable(old(metadata), old(stored), undeletable))
      ensures deletedCount == |Deletable(old(metadata), old(stored), undeletable)|
      ensures saves == old(saves) + 1
    {
      deletedCount := DeleteAll(undeletable);
      metadata := map[];
      saves := saves + 1;
    }

    /** The loop of `empty_recycle_bin`: deletes the stored item of every
        record, where it exists and can be deleted, and counts the deletions. */
    method DeleteAll(undeletable: set<string>) returns (deletedCount: nat)
      requires Valid()
      modifies this`stored
      ensures deletedCount == |Deletable(metadata, old(stored), undeletable)|
      ensures stored == old(stored) - StoredNames(metadata, Deletable(metadata, old(stored), undeletable))
    {
      var md := metadata;
      ghost var st0 := stored;
      ghost var target := Deletable(md, st0, undeletable);
      ghost var done: set<string> := {};
      deletedCount := 0;
      var pending := md.Keys;
      while pending != {}
        invariant pending <= md.Keys
        invariant done == target - pending
        invariant deletedCount == |done|
        invariant stored == st0 - StoredNames(md, done)
        decreases pending
      {
        var id :| id in pending;
        var itemPath := StoredName(id, md[id]);
        EmptyAdvance(md, st0, undeletable, pending, id, done, stored);
        if itemPath in stored && itemPath !in undeletable {
          stored := stored - {itemPath};
          done := done + {id};
          deletedCount := deletedCount + 1;
        }
        pending := pending - {id};
      }
    }

    /** The ids the recycle-bin page shows: those whose stored item exists. */
    ghost function Shown(): (ids: set<string>)
      reads this
    {
      ShownIds(metadata, stored)
    }

    /** The loop of `recycle_bin` that builds the rows: one row per record
        whose stored item exists, in the order the records are visited. */
    method CollectRows(now: int) returns (rows: seq<BinEntry>)
      ensures IdsOf(rows) == Shown() && |rows| == |Shown()|
      ensures RowsOf(metadata, now, rows)
    {
      var md, st := metadata, stored;
      ghost var shown := ShownIds(md, st);
      rows := [];
      var pending := md.Keys;
      while pending != {}
        invariant pending <= md.Keys
        invariant IdsOf(rows) == shown - pending
        invariant |rows| == |shown - pending|
        invariant RowsOf(md, now, rows)
        decreases pending
      {
        var id :| id in pending;
        var info := md[id];
        var itemPath := StoredName(id, info);
        ShownStep(md, st, pending, id);
        if itemPath in st {
          var row := EntryOf(id, info, now);
          IdsOfAppend(rows, row);
          RowsOfAppend(md, now, rows, id);
          rows := rows + [row];
        }
        pending := pending - {id};
      }
      assert shown - pending == shown;
    }

    /** The recycle-bin page: one row per record whose stored item exists,
        newest deletion first. */
    method Listing(now: int) returns (items: seq<BinEntry>)
      ensures IdsOf(items) == Shown() && |items| == |Shown()|
      ensures RowsOf(metadata, now, items)
      ensures forall i, j :: 0 <= i < j < |items| ==> items[i].deletedAt >= items[j].deletedAt
    {
      var rows := CollectRows(now);
      NewerOrSameIsTotalPreorder();
      items := SortBy(rows, NewerOrSame);
      PermutationKeepsIds(rows, items);
    }
  }

  /** After `clean_old_items` has run at `nowClean`, a row the recycle-bin page
      shows at the later `nowPage` with no days left belongs to an item whose
      deletion failed, or to one that reached RECYCLE_DAYS between the two
      readings of the clock. */
  lemma ShownAfterCleanHaveDaysLeft(md: map<string, Info>, stored: set<string>, undeletable: set<string>,
                                    nowClean: int, nowPage: int, id: string)
    requires nowClean <= nowPage
    requires id in md - Expired(md, stored, undeletable, nowClean)
    requires StoredName(id, md[id]) in stored - StoredNames(md, Expired(md, stored, undeletable, nowClean))
    ensures || DaysLeft(nowPage, md[id].deletedAt) > 0
            || StoredName(id, md[id]) in undeletable
            || AgeDays(nowClean, md[id].deletedAt) < RecycleDays <= AgeDays(nowPage, md[id].deletedAt)
  {
  }

  /** Read at one instant, the last case above cannot happen. */
  lemma ShownAtCleanTimeHaveDaysLeft(md: map<string, Info>, stored: set<string>, undeletable: set<string>,
                                     now: int, id: string)
    requires id in md - Expired(md, stored, undeletable, now)
    requires StoredName(id, md[id]) in stored - StoredNames(md, Expired(md, stored, undeletable, now))
    ensures DaysLeft(now, md[id].deletedAt) > 0 || StoredName(id, md[id]) in undeletable
  {
    ShownAfterCleanHaveDaysLeft(md, stored, undeletable, now, now, id);
  }

  /** The clocks differ: a bin holding one item deleted at time 0, whose
      deletion would not fail, meets the conditions of
      `ShownAfterCleanHaveDaysLeft` for a sweep one second before the item's
      thirtieth day, and the page a second later shows it with no days left. */
  lemma ClockBetweenSweepAndPage()
    ensures var md := map["x" := Info("a.txt", "a.txt", 0, false, 0)];
            var stored := {StoredName("x", md["x"])};
            var nowClean := RecycleDays * SecondsPerDay - 1;
            var nowPage := RecycleDays * SecondsPerDay;
            && nowClean <= nowPage
            && "x" in md - Expired(md, stored, {}, nowClean)
            && StoredName("x", md["x"]) in stored - StoredNames(md, Expired(md, stored, {}, nowClean))
            && DaysLeft(nowPage, md["x"].deletedAt) == 0
            && StoredName("x", md["x"]) !in {}
            && AgeDays(nowClean, md["x"].deletedAt) < RecycleDays <= AgeDays(nowPage, md["x"].deletedAt)
  {
    var md := map["x" := Info("a.txt", "a.txt", 0, false, 0)];
    var stored := {StoredName("x", md["x"])};
    var nowClean := RecycleDays * SecondsPerDay - 1;
    assert AgeDays(nowClean, 0) == RecycleDays - 1;
    assert Expired(md, stored, {}, nowClean) == {};
  }
}
