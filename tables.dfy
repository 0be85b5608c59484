/**
 * The three SQLite tables (`users`, `entries`, `images`) and the set of
 * stored upload paths, as one value; the constraints the schema declares as
 * an invariant; and each handler's effect on the tables as a function.
 */
module Tables {
  import opened Wrappers
  import opened IsoDate
  import opened Uploads

  datatype User = User(username: string, passwordHash: string, createdAt: string)

  datatype Entry = Entry(userId: nat, date: string, title: string, content: string, createdAt: string, updatedAt: string)

  /** `path` is the stored file relative to the upload root; `originalName` is what the row records as the original name. */
  datatype Image = Image(entryId: nat, path: string, originalName: string, createdAt: string)

  /**
   * The rows of each table keyed by id, the relative paths of the files under
   * the upload root, and the next id each AUTOINCREMENT key hands out.
   */
  datatype Db = Db(
    users: map<nat, User>,
    entries: map<nat, Entry>,
    images: map<nat, Image>,
    files: set<string>,
    nextUserId: nat,
    nextEntryId: nat,
    nextImageId: nat)

  /** A fresh database: empty tables, no files, ids start at 1. */
  const EMPTY_DB := Db(map[], map[], map[], {}, 1, 1, 1)

  /** `path` lies under the upload directory of `uid` and `date`. */
  predicate InDir(path: string, uid: nat, date: string)
  {
    |UserDir(uid, date)| <= |path| && path[..|UserDir(uid, date)|] == UserDir(uid, date)
  }

  /** `SELECT id FROM users WHERE username=?`. */
  function UsersNamed(users: map<nat, User>, name: string): set<nat>
  {
    set id | id in users && users[id].username == name
  }

  /** `SELECT id FROM entries WHERE user_id=? AND entry_date=?`. */
  function EntriesAt(entries: map<nat, Entry>, uid: nat, date: string): set<nat>
  {
    set id | id in entries && entries[id].userId == uid && entries[id].date == date
  }

  /** `SELECT ... FROM entries WHERE user_id=?`. */
  function EntriesOf(entries: map<nat, Entry>, uid: nat): set<nat>
  {
    set id | id in entries && entries[id].userId == uid
  }

  /** `SELECT ... FROM images WHERE entry_id=?`. */
  function ImagesOf(images: map<nat, Image>, eid: nat): set<nat>
  {
    set id | id in images && images[id].entryId == eid
  }

  function PathsOf(images: map<nat, Image>, ids: set<nat>): set<string>
  {
    set id | id in ids && id in images :: images[id].path
  }

  /** `username TEXT UNIQUE`. */
  ghost predicate UniqueUsernames(users: map<nat, User>)
  {
    forall a, b :: a in users && b in users && users[a].username == users[b].username ==> a == b
  }

  /** `UNIQUE(user_id, entry_date)`. */
  ghost predicate UniqueDates(entries: map<nat, Entry>)
  {
    forall a, b :: a in entries && b in entries && entries[a].userId == entries[b].userId && entries[a].date == entries[b].date ==> a == b
  }

  /** No two image rows share a stored file. */
  ghost predicate UniquePaths(images: map<nat, Image>)
  {
    forall a, b :: a in images && b in images && images[a].path == images[b].path ==> a == b
  }

  /** AUTOINCREMENT: every id in use is positive and below the next one handed out. */
  ghost predicate IdsBelow<T>(m: map<nat, T>, next: nat)
  {
    1 <= next && forall id :: id in m ==> 1 <= id < next
  }

  /**
   * The schema's constraints and the file layout: unique user names, one entry
   * per (user, date), entries owned by users, images owned by entries, each
   * image's file present, under its entry's directory, and used by no other row.
   */
  ghost predicate Inv(db: Db)
  {
    && IdsBelow(db.users, db.nextUserId)
    && IdsBelow(db.entries, db.nextEntryId)
    && IdsBelow(db.images, db.nextImageId)
    && UniqueUsernames(db.users)
    && UniqueDates(db.entries)
    && UniquePaths(db.images)
    && (forall id :: id in db.entries ==> db.entries[id].userId in db.users)
    && (forall id :: id in db.images ==> db.images[id].entryId in db.entries)
    && (forall id :: id in db.images ==> db.images[id].path in db.files)
    && (forall id :: id in db.images && db.images[id].entryId in db.entries ==>
          InDir(db.images[id].path, db.entries[db.images[id].entryId].userId, db.entries[db.images[id].entryId].date))
  }

  lemma EmptyInv()
    ensures Inv(EMPTY_DB)
  {
  }

  // ---------------------------------------------------------------- register

  /** `INSERT INTO users(username, password_hash, created_at)`. */
  function AddUser(db: Db, name: string, hash: string, now: string): Db
  {
    db.(users := db.users[db.nextUserId := User(name, hash, now)], nextUserId := db.nextUserId + 1)
  }

  /** Registering a name nobody holds keeps the invariant and makes the new id the only holder of the name. */
  lemma AddUserInv(db: Db, name: string, hash: string, now: string)
    requires Inv(db) && UsersNamed(db.users, name) == {}
    ensures Inv(AddUser(db, name, hash, now))
    ensures UsersNamed(AddUser(db, name, hash, now).users, name) == {db.nextUserId}
  {
    var r := AddUser(db, name, hash, now);
    assert db.nextUserId !in db.users;
    forall a, b | a in r.users && b in r.users && r.users[a].username == r.users[b].username
      ensures a == b
    {
      if a == db.nextUserId || b == db.nextUserId {
        assert a !in UsersNamed(db.users, name) && b !in UsersNamed(db.users, name);
      }
    }
  }

  // ------------------------------------------------------------- save_entry

  /**
   * `save_entry`'s upsert: with an entry for (uid, date), replace its title,
   * content and update time; without one, insert a new row.
   */
  ghost function Upsert(db: Db, uid: nat, date: string, title: string, content: string, now: string): Db
  {
    var at := EntriesAt(db.entries, uid, date);
    if at == {} then InsertEntry(db, Entry(uid, date, title, content, now, now))
    else
      var id :| id in at;
      db.(entries := db.entries[id := db.entries[id].(title := title, content := content, updatedAt := now)])
  }

  /** With the invariant, a (user, date) pair has at most one entry. */
  lemma AtMostOneEntry(db: Db, uid: nat, date: string, id: nat)
    requires Inv(db) && id in EntriesAt(db.entries, uid, date)
    ensures EntriesAt(db.entries, uid, date) == {id}
  {
  }

  /** The facts `UpsertSpec` states, for a given result `r` of the upsert. */
  ghost predicate Upserted(db: Db, r: Db, uid: nat, date: string, title: string, content: string, now: string)
  {
    && Inv(r)
    && r.users == db.users && r.images == db.images && r.files == db.files
    && |EntriesAt(r.entries, uid, date)| == 1
    && EntriesAt(db.entries, uid, date) <= EntriesAt(r.entries, uid, date)
    && (forall id :: id in EntriesAt(r.entries, uid, date) ==>
          && r.entries[id].title == title && r.entries[id].content == content && r.entries[id].updatedAt == now
          && (id in db.entries ==> r.entries[id].createdAt == db.entries[id].createdAt)
          && (id !in db.entries ==> r.entries[id].createdAt == now))
    && (forall id :: id in db.entries && id !in EntriesAt(db.entries, uid, date) ==> id in r.entries && r.entries[id] == db.entries[id])
    && r.entries.Keys == db.entries.Keys + EntriesAt(r.entries, uid, date)
  }

  /** The row `save_entry` or `upload_images` inserts for a (user, date) pair that has none. */
  function InsertEntry(db: Db, e: Entry): Db
  {
    db.(entries := db.entries[db.nextEntryId := e], nextEntryId := db.nextEntryId + 1)
  }

  /** The entry rows after inserting `e`: the new row is the only one at its date and the rest are kept. */
  lemma InsertEntryRows(db: Db, e: Entry)
    requires db.nextEntryId !in db.entries && EntriesAt(db.entries, e.userId, e.date) == {}
    ensures var r := InsertEntry(db, e);
      && EntriesAt(r.entries, e.userId, e.date) == {db.nextEntryId}
      && r.entries[db.nextEntryId] == e
      && r.entries.Keys == db.entries.Keys + {db.nextEntryId}
      && (forall id :: id in db.entries ==> id in r.entries && r.entries[id] == db.entries[id])
  {
    var r := InsertEntry(db, e);
    assert forall id :: id in db.entries ==> id !in EntriesAt(db.entries, e.userId, e.date);
  }

  lemma InsertEntryInv(db: Db, e: Entry)
    requires Inv(db) && e.userId in db.users && EntriesAt(db.entries, e.userId, e.date) == {}
    ensures Inv(InsertEntry(db, e))
    ensures EntriesAt(InsertEntry(db, e).entries, e.userId, e.date) == {db.nextEntryId}
  {
    assert db.nextEntryId !in db.entries;
    InsertEntryRows(db, e);
  }

  /** With no entry for (uid, date), the upsert is the insertion of a new row. */
  lemma UpsertNew(db: Db, uid: nat, date: string, title: string, content: string, now: string)
    requires EntriesAt(db.entries, uid, date) == {}
    ensures Upsert(db, uid, date, title, content, now) == InsertEntry(db, Entry(uid, date, title, content, now, now))
  {
  }

  /** With entry `id` for (uid, date), the upsert updates that row. */
  lemma UpsertExisting(db: Db, uid: nat, date: string, title: string, content: string, now: string, id: nat)
    requires Inv(db) && id in EntriesAt(db.entries, uid, date)
    ensures Upsert(db, uid, date, title, content, now) ==
            db.(entries := db.entries[id := db.entries[id].(title := title, content := content, updatedAt := now)])
  {
    AtMostOneEntry(db, uid, date, id);
  }

  lemma UpsertInserts(db: Db, uid: nat, date: string, title: string, content: string, now: string)
    requires Inv(db) && uid in db.users && EntriesAt(db.entries, uid, date) == {}
    ensures Upserted(db, Upsert(db, uid, date, title, content, now), uid, date, title, content, now)
  {
    var e := Entry(uid, date, title, content, now, now);
    assert db.nextEntryId !in db.entries;
    InsertEntryInv(db, e);
    InsertEntryRows(db, e);
    UpsertNew(db, uid, date, title, content, now);
  }

  lemma UpsertUpdates(db: Db, uid: nat, date: string, title: string, content: string, now: string, id: nat)
    requires Inv(db) && uid in db.users && id in EntriesAt(db.entries, uid, date)
    ensures Upserted(db, Upsert(db, uid, date, title, content, now), uid, date, title, content, now)
  {
    UpsertExisting(db, uid, date, title, content, now, id);
    var r := db.(entries := db.entries[id := db.entries[id].(title := title, content := content, updatedAt := now)]);
    assert EntriesAt(r.entries, uid, date) == {id};
  }

  /**
   * After an upsert there is exactly one entry for (uid, date), carrying the
   * new title, content and update time; an existing entry keeps its id and
   * creation time, a new one was created at `now`; no other entry changes,
   * and the other tables are untouched.
   */
  lemma UpsertSpec(db: Db, uid: nat, date: string, title: string, content: string, now: string)
    requires Inv(db) && uid in db.users
    ensures Upserted(db, Upsert(db, uid, date, title, content, now), uid, date, title, content, now)
  {
    if EntriesAt(db.entries, uid, date) == {} {
      UpsertInserts(db, uid, date, title, content, now);
    } else {
      var id :| id in EntriesAt(db.entries, uid, date);
      UpsertUpdates(db, uid, date, title, content, now, id);
    }
  }

  /** The upsert keeps the invariant and the users table. */
  lemma UpsertInv(db: Db, uid: nat, date: string, title: string, content: string, now: string)
    requires Inv(db) && uid in db.users
    ensures Inv(Upsert(db, uid, date, title, content, now))
    ensures Upsert(db, uid, date, title, content, now).users == db.users
  {
    UpsertSpec(db, uid, date, title, content, now);
  }

  /**
   * Saving twice for the same (user, date) leaves one entry, with the second
   * save's title, content and time, and the creation time of the first save's row.
   */
  lemma UpsertTwice(db: Db, uid: nat, date: string, t1: string, c1: string, n1: string, t2: string, c2: string, n2: string)
    requires Inv(db) && uid in db.users
    ensures var r1 := Upsert(db, uid, date, t1, c1, n1);
            var r2 := Upsert(r1, uid, date, t2, c2, n2);
      && EntriesAt(r2.entries, uid, date) == EntriesAt(r1.entries, uid, date)
      && |EntriesAt(r2.entries, uid, date)| == 1
      && (forall id :: id in EntriesAt(r2.entries, uid, date) ==>
            r2.entries[id] == r1.entries[id].(title := t2, content := c2, updatedAt := n2))
      && r2.entries.Keys == r1.entries.Keys
  {
    UpsertSpec(db, uid, date, t1, c1, n1);
    var r1 := Upsert(db, uid, date, t1, c1, n1);
    var id :| id in EntriesAt(r1.entries, uid, date);
    AtMostOneEntry(r1, uid, date, id);
    UpsertUpdates(r1, uid, date, t2, c2, n2, id);
    var r2 := Upsert(r1, uid, date, t2, c2, n2);
    assert id in EntriesAt(r2.entries, uid, date);
    AtMostOneEntry(r2, uid, date, id);
  }

  // ---------------------------------------------------------- upload_images

  /** `upload_images`' first step: insert an entry with empty title and content when (uid, date) has none. */
  function Placeholder(db: Db, uid: nat, date: string, now: string): Db
  {
    if EntriesAt(db.entries, uid, date) == {} then InsertEntry(db, Entry(uid, date, "", "", now, now))
    else db
  }

  /**
   * The placeholder step keeps the invariant and leaves exactly one entry for
   * (uid, date); it changes nothing when there already is one, and otherwise
   * the new entry is empty.
   */
  lemma PlaceholderSpec(db: Db, uid: nat, date: string, now: string)
    requires Inv(db) && uid in db.users
    ensures var r := Placeholder(db, uid, date, now);
      && Inv(r)
      && |EntriesAt(r.entries, uid, date)| == 1
      && (EntriesAt(db.entries, uid, date) != {} ==> r == db)
      && (EntriesAt(db.entries, uid, date) == {} ==>
            EntriesAt(r.entries, uid, date) == {db.nextEntryId} &&
            r.entries[db.nextEntryId].title == "" && r.entries[db.nextEntryId].content == "")
  {
    var at := EntriesAt(db.entries, uid, date);
    if at == {} {
      InsertEntryInv(db, Entry(uid, date, "", "", now, now));
    } else {
      var id :| id in at;
      AtMostOneEntry(db, uid, date, id);
    }
  }

  /** Every entry is keyed by a date `date.fromisoformat` accepts, as the write handlers and the entry page require. */
  ghost predicate AllDated(entries: map<nat, Entry>)
  {
    forall id :: id in entries ==> IsIsoDate(entries[id].date)
  }

  /** The upsert of `save_entry`, whose date was checked, keeps every entry dated. */
  lemma UpsertDated(db: Db, uid: nat, date: string, title: string, content: string, now: string)
    requires AllDated(db.entries) && IsIsoDate(date)
    ensures AllDated(Upsert(db, uid, date, title, content, now).entries)
  {
  }

  /** The placeholder step keeps every entry dated when its date was checked. */
  lemma PlaceholderDated(db: Db, uid: nat, date: string, now: string)
    requires AllDated(db.entries) && IsIsoDate(date)
    ensures AllDated(Placeholder(db, uid, date, now).entries)
  {
  }

  /** One accepted upload: `f.save(path)` and `INSERT INTO images(entry_id, filename, original_name, created_at)`. */
  function AddImage(db: Db, eid: nat, path: string, name: string, now: string): Db
  {
    db.(images := db.images[db.nextImageId := Image(eid, path, name, now)],
        files := db.files + {path},
        nextImageId := db.nextImageId + 1)
  }

  /** Adding an image under its entry's directory, at a path no file uses yet, keeps the invariant. */
  lemma AddImageInv(db: Db, eid: nat, path: string, name: string, now: string)
    requires Inv(db) && eid in db.entries && path !in db.files
    requires InDir(path, db.entries[eid].userId, db.entries[eid].date)
    ensures Inv(AddImage(db, eid, path, name, now))
  {
    assert db.nextImageId !in db.images;
    assert forall id :: id in db.images ==> db.images[id].path != path;
  }

  /** Image `id` is a row the upload loop added: under the entry at (uid, date), at a path not stored before. */
  ghost predicate NewImage(start: Db, db: Db, id: nat, uid: nat, date: string, name: string, now: string)
  {
    && id in db.images
    && db.images[id].entryId in EntriesAt(db.entries, uid, date)
    && db.images[id].originalName == name && db.images[id].createdAt == now
    && InDir(db.images[id].path, uid, date)
    && db.images[id].path !in start.files
  }

  /**
   * `db` is `start` after the upload loop stored one file per name of `names`,
   * in order, recording `sanitize` of each name: only image rows and files were added, the rows take the next ids
   * one by one, the old rows are unchanged, and the new files are exactly the
   * new rows' paths.
   */
  ghost predicate Stored(start: Db, db: Db, uid: nat, date: string, names: seq<string>, sanitize: string -> string, now: string)
  {
    && Inv(db)
    && db.users == start.users && db.entries == start.entries
    && db.nextUserId == start.nextUserId && db.nextEntryId == start.nextEntryId
    && db.nextImageId == start.nextImageId + |names|
    && (forall id :: id in db.images <==> id in start.images || start.nextImageId <= id < db.nextImageId)
    && (forall id :: id in start.images ==> db.images[id] == start.images[id])
    && (forall k :: 0 <= k < |names| ==> NewImage(start, db, start.nextImageId + k, uid, date, sanitize(names[k]), now))
    && db.files == start.files + PathsOf(db.images, db.images.Keys - start.images.Keys)
  }

  lemma StoredNone(start: Db, uid: nat, date: string, sanitize: string -> string, now: string)
    requires Inv(start)
    ensures Stored(start, start, uid, date, [], sanitize, now)
  {
    assert start.images.Keys - start.images.Keys == {};
  }

  /** Storing one more file, for the entry at (uid, date) at a path not in use, extends `Stored` by its name. */
  lemma StoredStep(start: Db, db: Db, uid: nat, date: string, names: seq<string>, sanitize: string -> string,
                   eid: nat, path: string, name: string, now: string)
    requires Stored(start, db, uid, date, names, sanitize, now)
    requires eid in EntriesAt(db.entries, uid, date) && path !in db.files && InDir(path, uid, date)
    ensures Stored(start, AddImage(db, eid, path, sanitize(name), now), uid, date, names + [name], sanitize, now)
  {
    var r := AddImage(db, eid, path, sanitize(name), now);
    AddImageInv(db, eid, path, sanitize(name), now);
    StoredStepRows(start, db, uid, date, names, sanitize, eid, path, name, now);
    assert db.nextImageId !in db.images;
    StoredStepFiles(start, db, eid, path, sanitize(name), now);
    assert r.nextImageId == start.nextImageId + |names + [name]|;
    assert forall id :: id in r.images <==> id in start.images || start.nextImageId <= id < r.nextImageId;
  }

  lemma StoredStepRows(start: Db, db: Db, uid: nat, date: string, names: seq<string>, sanitize: string -> string,
                       eid: nat, path: string, name: string, now: string)
    requires Stored(start, db, uid, date, names, sanitize, now)
    requires eid in EntriesAt(db.entries, uid, date) && path !in db.files && InDir(path, uid, date)
    ensures var r := AddImage(db, eid, path, sanitize(name), now);
      && (forall id :: id in start.images ==> r.images[id] == start.images[id])
      && (forall k :: 0 <= k < |names| + 1 ==> NewImage(start, r, start.nextImageId + k, uid, date, sanitize((names + [name])[k]), now))
  {
    var r := AddImage(db, eid, path, sanitize(name), now);
    assert db.nextImageId !in db.images;
    forall id | id in start.images
      ensures r.images[id] == start.images[id]
    {
      assert id in db.images;
    }
    forall k | 0 <= k < |names| + 1
      ensures NewImage(start, r, start.nextImageId + k, uid, date, sanitize((names + [name])[k]), now)
    {
      if k < |names| {
        assert NewImage(start, db, start.nextImageId + k, uid, date, sanitize(names[k]), now);
      }
    }
  }

  lemma StoredStepFiles(start: Db, db: Db, eid: nat, path: string, name: string, now: string)
    requires db.files == start.files + PathsOf(db.images, db.images.Keys - start.images.Keys)
    requires db.nextImageId !in db.images && db.nextImageId !in start.images
    ensures var r := AddImage(db, eid, path, name, now);
      r.files == start.files + PathsOf(r.images, r.images.Keys - start.images.Keys)
  {
    var n := db.nextImageId;
    var r := AddImage(db, eid, path, name, now);
    assert n !in db.images;
    var added := db.images.Keys - start.images.Keys;
    assert r.images.Keys - start.images.Keys == added + {n};
    assert PathsOf(r.images, added + {n}) == PathsOf(db.images, added) + {path};
  }

  /** The path the upload loop stores `name` under: a fresh prefix in the directory of (uid, date). */
  function UploadPath(db: Db, uid: nat, date: string, name: string): string
  {
    StoragePath(uid, date, FreshPrefix(db.files, uid, date, name), name)
  }

  /** The upload loop over `names`, the uploads it keeps, in order: each is stored as an image of entry `eid`. */
  function SaveAll(db: Db, eid: nat, uid: nat, date: string, names: seq<string>, sanitize: string -> string, now: string): Db
  {
    if names == [] then db
    else
      var before := SaveAll(db, eid, uid, date, names[..|names| - 1], sanitize, now);
      var name := sanitize(names[|names| - 1]);
      AddImage(before, eid, UploadPath(before, uid, date, name), name, now)
  }

  /** Storing one more upload after `names` adds its row to what storing `names` gave. */
  lemma SaveAllSnoc(db: Db, eid: nat, uid: nat, date: string, names: seq<string>, name: string, sanitize: string -> string, now: string)
    ensures var before := SaveAll(db, eid, uid, date, names, sanitize, now);
      SaveAll(db, eid, uid, date, names + [name], sanitize, now)
        == AddImage(before, eid, UploadPath(before, uid, date, sanitize(name)), sanitize(name), now)
  {
    assert (names + [name])[..|names|] == names;
  }

  /**
   * Storing the kept uploads of the entry at (uid, date) yields a database
   * related to the old one by `Stored`, and so keeps the invariant.
   */
  lemma {:induction false} SaveAllStored(db: Db, eid: nat, uid: nat, date: string, names: seq<string>, sanitize: string -> string, now: string)
    requires Inv(db) && eid in EntriesAt(db.entries, uid, date)
    ensures Stored(db, SaveAll(db, eid, uid, date, names, sanitize, now), uid, date, names, sanitize, now)
  {
    if names == [] {
      StoredNone(db, uid, date, sanitize, now);
    } else {
      var init := names[..|names| - 1];
      var last := names[|names| - 1];
      assert names == init + [last];
      SaveAllStored(db, eid, uid, date, init, sanitize, now);
      var before := SaveAll(db, eid, uid, date, init, sanitize, now);
      var path := UploadPath(before, uid, date, sanitize(last));
      assert InDir(path, uid, date);
      StoredStep(db, before, uid, date, init, sanitize, eid, path, last, now);
    }
  }

  /** Two uploads of the same name are both kept, as two rows with the same recorded name and different paths. */
  lemma SameNameTwice(db: Db, eid: nat, uid: nat, date: string, name: string, sanitize: string -> string, now: string)
    requires Inv(db) && eid in EntriesAt(db.entries, uid, date)
    ensures var r := SaveAll(db, eid, uid, date, [name, name], sanitize, now);
      && db.nextImageId in r.images && db.nextImageId + 1 in r.images
      && r.images[db.nextImageId].originalName == r.images[db.nextImageId + 1].originalName == sanitize(name)
      && r.images[db.nextImageId].path != r.images[db.nextImageId + 1].path
  {
    SaveAllStored(db, eid, uid, date, [name, name], sanitize, now);
    var r := SaveAll(db, eid, uid, date, [name, name], sanitize, now);
    assert NewImage(db, r, db.nextImageId + 0, uid, date, sanitize([name, name][0]), now);
    assert NewImage(db, r, db.nextImageId + 1, uid, date, sanitize([name, name][1]), now);
  }

  // ----------------------------------------------------------- delete_entry

  /** Remove entry `eid`, every image row pointing at it, and those images' files. */
  function DropEntry(db: Db, eid: nat): Db
  {
    db.(entries := db.entries - {eid},
        images := map id | id in db.images && db.images[id].entryId != eid :: db.images[id],
        files := db.files - PathsOf(db.images, ImagesOf(db.images, eid)))
  }

  /**
   * Dropping an entry keeps the invariant: no image is left pointing at the
   * removed entry, and the files of the remaining images are still there.
   */
  lemma DropEntryInv(db: Db, eid: nat)
    requires Inv(db)
    ensures Inv(DropEntry(db, eid))
    ensures forall id :: id in DropEntry(db, eid).images ==> DropEntry(db, eid).images[id].entryId != eid
  {
    DropEntryFiles(db, eid);
  }

  /** The files of the images that stay are not among the removed files, since no two rows share a file. */
  lemma DropEntryFiles(db: Db, eid: nat)
    requires UniquePaths(db.images) && forall id :: id in db.images ==> db.images[id].path in db.files
    ensures forall id :: id in DropEntry(db, eid).images ==> DropEntry(db, eid).images[id].path in DropEntry(db, eid).files
  {
    var r := DropEntry(db, eid);
    var doomed := ImagesOf(db.images, eid);
    forall id | id in r.images
      ensures r.images[id].path in r.files
    {
      assert forall j :: j in doomed ==> db.images[j].path != db.images[id].path;
    }
  }


  /** `delete_entry` for (uid, date): drop the entry found there, if any. */
  ghost function DeleteByDate(db: Db, uid: nat, date: string): Db
  {
    var at := EntriesAt(db.entries, uid, date);
    if at == {} then db else var eid :| eid in at; DropEntry(db, eid)
  }

  /** With entry `eid` at (uid, date), deleting by date drops exactly that entry. */
  lemma DeleteByDateOf(db: Db, uid: nat, date: string, eid: nat)
    requires Inv(db) && eid in EntriesAt(db.entries, uid, date)
    ensures DeleteByDate(db, uid, date) == DropEntry(db, eid)
  {
    AtMostOneEntry(db, uid, date, eid);
  }

  /**
   * Deleting by date keeps the invariant and leaves no entry for (uid, date).
   * With no entry there it changes nothing. Entries and images of other users
   * and their files are untouched.
   */
  lemma DeleteByDateSpec(db: Db, uid: nat, date: string)
    requires Inv(db)
    ensures var r := DeleteByDate(db, uid, date);
      && Inv(r)
      && EntriesAt(r.entries, uid, date) == {}
      && (EntriesAt(db.entries, uid, date) == {} ==> r == db)
      && r.users == db.users
      && (forall id :: id in db.entries && db.entries[id].userId != uid ==> id in r.entries && r.entries[id] == db.entries[id])
      && (forall id :: id in db.images && db.entries[db.images[id].entryId].userId != uid ==>
            id in r.images && r.images[id] == db.images[id] && r.images[id].path in r.files)
  {
    var at := EntriesAt(db.entries, uid, date);
    if at != {} {
      var eid :| eid in at;
      DropEntryInv(db, eid);
      AtMostOneEntry(db, uid, date, eid);
    }
  }

  // ----------------------------------------------------------- delete_image

  /**
   * The row `delete_image` finds: image `id` exists, and the entry it points
   * at belongs to `uid` (the join of `images` and `entries`).
   */
  predicate OwnsImage(db: Db, uid: nat, id: nat)
  {
    id in db.images && db.images[id].entryId in db.entries && db.entries[db.images[id].entryId].userId == uid
  }

  /** `delete_image`: remove the image's file and row if `uid` owns it; otherwise nothing. */
  function DeleteImageAs(db: Db, uid: nat, imageId: Option<nat>): Db
  {
    if imageId.Some? && OwnsImage(db, uid, imageId.value) then
      var id := imageId.value;
      db.(images := db.images - {id}, files := db.files - {db.images[id].path})
    else db
  }

  /**
   * Deleting an image keeps the invariant. For an image the user does not own,
   * or an id that names no image, nothing changes; otherwise exactly that row
   * and its file go, and every other image and file stays.
   */
  lemma DeleteImageSpec(db: Db, uid: nat, imageId: Option<nat>)
    requires Inv(db)
    ensures var r := DeleteImageAs(db, uid, imageId);
      && Inv(r)
      && r.users == db.users && r.entries == db.entries
      && (!(imageId.Some? && OwnsImage(db, uid, imageId.value)) ==> r == db)
      && (imageId.Some? && OwnsImage(db, uid, imageId.value) ==>
            && imageId.value !in r.images && db.images[imageId.value].path !in r.files
            && r.files == db.files - {db.images[imageId.value].path}
            && r.images.Keys == db.images.Keys - {imageId.value}
            && (forall id :: id in r.images ==> r.images[id] == db.images[id] && r.images[id].path in r.files))
  {
    if imageId.Some? && OwnsImage(db, uid, imageId.value) {
      var r := DeleteImageAs(db, uid, imageId);
      forall id | id in r.images
        ensures r.images[id].path in r.files
      {
        assert db.images[id].path != db.images[imageId.value].path;
      }
    }
  }
}
