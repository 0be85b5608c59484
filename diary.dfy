/**
 * The request handlers of the diary: a `Store` object holds the tables, the
 * stored files and one browser's session, and each handler is a method that
 * runs the guards and then changes a few rows.
 */
module Diary {
  import opened Wrappers
  import opened Text
  import opened IsoDate
  import opened Guards
  import opened Uploads
  import opened Tables
  import opened Calendar

  /** What a handler answers: a redirect, a re-rendered form, HTTP 400, or the JSON feed. */
  datatype Response =
    | RedirectToLogin(next: Option<string>)
    | RedirectToDashboard
    | RedirectToEntry(date: Option<string>)
    | RenderRegister
    | RenderLogin
    | BadRequest
    | Json(events: seq<Event>)

  /** `datetime.date.fromisoformat(date)` succeeds; a missing field fails too. */
  predicate DateOk(date: Option<string>)
  {
    date.Some? && IsIsoDate(date.value)
  }

  /** `events` lists the entries of `uid`: one event per entry, in some order, and nothing else. */
  ghost predicate ListsEntries(events: seq<Event>, entries: map<nat, Entry>, uid: nat)
  {
    && |events| == |EntriesOf(entries, uid)|
    && (forall id :: id in EntriesOf(entries, uid) ==> EventOf(entries[id]) in events)
    && (forall i :: 0 <= i < |events| ==> exists id :: id in EntriesOf(entries, uid) && events[i] == EventOf(entries[id]))
    && (forall i, j :: 0 <= i < j < |events| ==> events[i].start != events[j].start)
  }

  /** The guards of a logged-in POST handler pass: a user is in the session and the form carries its CSRF token. */
  ghost predicate Admitted(s: Session, formToken: Option<string>)
  {
    CurrentUser(s).Some? && CsrfValid(s, formToken)
  }

  /** The answer when a guard fails: `login_required` redirects to the login page, a bad token aborts with 400. */
  function Refusal(s: Session, path: string): Response
  {
    if CurrentUser(s).None? then RedirectToLogin(Some(path)) else BadRequest
  }

  /**
   * Events built from a duplicate-free listing of all the entries of `uid`
   * list those entries: one event each, and distinct days, because a user has
   * at most one entry per date.
   */
  lemma OrderLists(events: seq<Event>, order: seq<nat>, entries: map<nat, Entry>, uid: nat)
    requires UniqueDates(entries)
    requires |order| == |events| == |EntriesOf(entries, uid)|
    requires forall i :: 0 <= i < |order| ==> order[i] in EntriesOf(entries, uid) && events[i] == EventOf(entries[order[i]])
    requires forall id :: id in EntriesOf(entries, uid) ==> id in order
    requires forall i, j :: 0 <= i < j < |order| ==> order[i] != order[j]
    ensures ListsEntries(events, entries, uid)
  {
    var rows := EntriesOf(entries, uid);
    forall id | id in rows
      ensures EventOf(entries[id]) in events
    {
      var i :| 0 <= i < |order| && order[i] == id;
      assert events[i] == EventOf(entries[id]);
    }
    forall i | 0 <= i < |events|
      ensures exists id :: id in rows && events[i] == EventOf(entries[id])
    {
      assert order[i] in rows && events[i] == EventOf(entries[order[i]]);
    }
    forall i, j | 0 <= i < j < |events|
      ensures events[i].start != events[j].start
    {
      assert order[i] != order[j];
    }
  }

  class Store {
    var users: map<nat, User>
    var entries: map<nat, Entry>
    var images: map<nat, Image>
    var files: set<string>
    var nextUserId: nat
    var nextEntryId: nat
    var nextImageId: nat
    /** The session of the one browser this model follows. */
    var session: Session

    /** The tables and files of the store as one `Db` value. */
    ghost function Data(): Db
      reads this
    {
      Db(users, entries, images, files, nextUserId, nextEntryId, nextImageId)
    }

    ghost function State(): (Db, Session)
      reads this
    {
      (Data(), session)
    }

    /** The table invariant, and a logged-in session names a registered user. */
    ghost predicate Valid()
      reads this
    {
      Inv(Data()) && (session.userId.Some? ==> session.userId.value in users)
    }

    constructor ()
      ensures Valid()
      ensures Data() == EMPTY_DB && session == EMPTY_SESSION
    {
      users, entries, images, files := map[], map[], map[], {};
      nextUserId, nextEntryId, nextImageId := 1, 1, 1;
      session := EMPTY_SESSION;
    }

    /** `SELECT id FROM users WHERE username=?`: the one user with that name, if any. */
    method FindUser(name: string) returns (r: Option<nat>)
      requires Valid()
      ensures r.Some? ==> UsersNamed(users, name) == {r.value}
      ensures r.None? ==> UsersNamed(users, name) == {}
    {
      var named := UsersNamed(users, name);
      if named == {} {
        r := None;
      } else {
        var id :| id in named;
        r := Some(id);
      }
    }

    /** `SELECT id FROM entries WHERE user_id=? AND entry_date=?`: the one entry there, if any. */
    method FindEntry(uid: nat, date: string) returns (r: Option<nat>)
      requires Valid()
      ensures r.Some? ==> EntriesAt(entries, uid, date) == {r.value}
      ensures r.None? ==> EntriesAt(entries, uid, date) == {}
    {
      var at := EntriesAt(entries, uid, date);
      if at == {} {
        r := None;
      } else {
        var id :| id in at;
        AtMostOneEntry(Data(), uid, date, id);
        r := Some(id);
      }
    }

    /** `get_csrf`, as the GET form pages call it. */
    method GetCsrf(newToken: string) returns (token: string)
      requires Valid() && newToken != ""
      modifies this
      ensures Valid()
      ensures (session, token) == IssueCsrf(old(session), newToken)
      ensures Data() == old(Data())
    {
      var issued := IssueCsrf(session, newToken);
      session, token := issued.0, issued.1;
    }

    /**
     * POST `/register`. After the CSRF check, an empty stripped user name, an
     * empty password or a taken user name re-renders the form and changes
     * nothing; otherwise exactly one user is added and the session logs in as it.
     */
    method Register(formToken: Option<string>, username: string, password: string, passwordHash: string, now: string)
      returns (resp: Response)
      requires Valid()
      modifies this
      ensures Valid()
      ensures !CsrfValid(old(session), formToken) ==> resp == BadRequest && State() == old(State())
      ensures CsrfValid(old(session), formToken) &&
              (Strip(username) == "" || password == "" || UsersNamed(old(users), Strip(username)) != {}) ==>
                resp == RenderRegister && State() == old(State())
      ensures CsrfValid(old(session), formToken) &&
              Strip(username) != "" && password != "" && UsersNamed(old(users), Strip(username)) == {} ==>
                && resp == RedirectToDashboard
                && Data() == AddUser(old(Data()), Strip(username), passwordHash, now)
                && UsersNamed(users, Strip(username)) == {old(nextUserId)}
                && session == old(session).(userId := Some(old(nextUserId)), username := Some(Strip(username)))
    {
      if !CsrfValid(session, formToken) {
        return BadRequest;
      }
      var name := Strip(username);
      if name == "" || password == "" {
        return RenderRegister;
      }
      var holder := FindUser(name);
      if holder.Some? {
        // the UNIQUE constraint rejects the INSERT
        return RenderRegister;
      }
      ghost var db := Data();
      AddUserInv(db, name, passwordHash, now);
      var id := nextUserId;
      users := users[id := User(name, passwordHash, now)];
      nextUserId := nextUserId + 1;
      assert Data() == AddUser(db, name, passwordHash, now);
      session := session.(userId := Some(id), username := Some(name));
      resp := RedirectToDashboard;
    }

    /**
     * POST `/login`. When the stripped user name names a user whose stored hash
     * accepts the password, the session is cleared and holds that user and a new
     * CSRF token; otherwise (no such user or a wrong password, alike) the form
     * is shown again and nothing changes.
     */
    method Login(formToken: Option<string>, username: string, password: string,
                 checkPassword: (string, string) -> bool, newToken: string)
      returns (resp: Response)
      requires Valid() && newToken != ""
      modifies this
      ensures Valid()
      ensures Data() == old(Data())
      ensures !CsrfValid(old(session), formToken) ==> resp == BadRequest && session == old(session)
      ensures CsrfValid(old(session), formToken) ==>
        forall id :: id in UsersNamed(users, Strip(username)) ==>
          if checkPassword(users[id].passwordHash, password) then
            resp == RedirectToDashboard && session == Session(Some(id), Some(users[id].username), Some(newToken))
          else
            resp == RenderLogin && session == old(session)
      ensures CsrfValid(old(session), formToken) && UsersNamed(users, Strip(username)) == {} ==>
        resp == RenderLogin && session == old(session)
    {
      if !CsrfValid(session, formToken) {
        return BadRequest;
      }
      var name := Strip(username);
      var row := FindUser(name);
      if row.Some? && checkPassword(users[row.value].passwordHash, password) {
        var cleared := EMPTY_SESSION.(userId := row, username := Some(users[row.value].username));
        var issued := IssueCsrf(cleared, newToken);
        SetSession(issued.0);
        return RedirectToDashboard;
      }
      resp := RenderLogin;
    }

    /** `session[...] = ...`: only the session changes, and it names a registered user if any. */
    method SetSession(s: Session)
      requires Valid() && (s.userId.Some? ==> s.userId.value in users)
      modifies this
      ensures Valid() && Data() == old(Data()) && session == s
    {
      session := s;
    }

    /** GET `/logout`: the session is cleared. */
    method Logout() returns (resp: Response)
      requires Valid()
      modifies this
      ensures Valid()
      ensures resp == RedirectToLogin(None) && session == EMPTY_SESSION && Data() == old(Data())
    {
      session := EMPTY_SESSION;
      resp := RedirectToLogin(None);
    }

    /** GET `/api/events` behind `login_required`. */
    method ApiEvents() returns (resp: Response)
      requires Valid()
      ensures CurrentUser(session).None? ==> resp == RedirectToLogin(Some("/api/events"))
      ensures CurrentUser(session).Some? ==> resp.Json? && ListsEntries(resp.events, entries, CurrentUser(session).value)
    {
      var user := CurrentUser(session);
      if user.None? {
        return RedirectToLogin(Some("/api/events"));
      }
      var events := ListEvents(user.value);
      resp := Json(events);
    }

    /** The loop of `api_events`: one event per entry of `uid`, in the order the rows come. */
    method ListEvents(uid: nat) returns (events: seq<Event>)
      requires Valid()
      ensures ListsEntries(events, entries, uid)
    {
      var rows := EntriesOf(entries, uid);
      var pending := rows;
      events := [];
      ghost var order: seq<nat> := [];
      while pending != {}
        invariant pending <= rows
        invariant |order| == |events| && |events| + |pending| == |rows|
        invariant forall i :: 0 <= i < |order| ==> order[i] in rows && order[i] !in pending && events[i] == EventOf(entries[order[i]])
        invariant forall id :: id in rows && id !in pending ==> id in order
        invariant forall i, j :: 0 <= i < j < |order| ==> order[i] != order[j]
        decreases pending
      {
        var id :| id in pending;
        events := events + [EventOf(entries[id])];
        order := order + [id];
        pending := pending - {id};
      }
      OrderLists(events, order, entries, uid);
    }

    /**
     * POST `/entry/save`. Behind the guards and the date check, the tables
     * change exactly as the upsert of the stripped title and content says.
     */
    method SaveEntry(formToken: Option<string>, date: Option<string>, title: string, content: string, now: string)
      returns (resp: Response)
      requires Valid()
      modifies this
      ensures Valid()
      ensures AllDated(old(entries)) ==> AllDated(entries)
      ensures !Admitted(old(session), formToken) ==>
        resp == Refusal(old(session), "/entry/save") && State() == old(State())
      ensures Admitted(old(session), formToken) && !DateOk(date) ==>
        resp == BadRequest && State() == old(State())
      ensures Admitted(old(session), formToken) && DateOk(date) ==>
        && resp == RedirectToEntry(date) && session == old(session)
        && Data() == Upsert(old(Data()), CurrentUser(old(session)).value, date.value, Strip(title), Strip(content), now)
    {
      var user := CurrentUser(session);
      if user.None? {
        return RedirectToLogin(Some("/entry/save"));
      }
      if !CsrfValid(session, formToken) {
        return BadRequest;
      }
      var cleanTitle, cleanContent := Strip(title), Strip(content);
      if !DateOk(date) {
        return BadRequest;
      }
      var uid, d := user.value, date.value;
      UpsertInv(Data(), uid, d, cleanTitle, cleanContent, now);
      if AllDated(entries) {
        UpsertDated(Data(), uid, d, cleanTitle, cleanContent, now);
      }
      WriteEntry(uid, d, cleanTitle, cleanContent, now);
      resp := RedirectToEntry(date);
    }

    /**
     * The upsert of `save_entry`: the entry of (uid, d) gets the new title,
     * content and update time, or a new entry is inserted when there is none.
     */
    method WriteEntry(uid: nat, d: string, title: string, content: string, now: string)
      requires Valid()
      modifies this
      ensures Data() == Upsert(old(Data()), uid, d, title, content, now) && session == old(session)
    {
      var row := FindEntry(uid, d);
      ghost var db := Data();
      if row.Some? {
        var id := row.value;
        UpsertExisting(db, uid, d, title, content, now, id);
        entries := entries[id := entries[id].(title := title, content := content, updatedAt := now)];
      } else {
        UpsertNew(db, uid, d, title, content, now);
        entries := entries[nextEntryId := Entry(uid, d, title, content, now, now)];
        nextEntryId := nextEntryId + 1;
      }
      assert Data() == Upsert(db, uid, d, title, content, now);
    }

    /**
     * One pass of the upload loop for entry `eid`: skip an upload without a
     * name or with an extension `allowed_file` refuses; otherwise save the
     * file under a fresh path in the directory of (uid, d) and add its image
     * row, recording the sanitized name.
     */
    method SaveUpload(eid: nat, uid: nat, d: string, name: string, sanitize: string -> string, now: string)
      returns (ok: bool)
      modifies this
      ensures ok == Saves(name) && session == old(session)
      ensures ok ==> Data() == AddImage(old(Data()), eid, UploadPath(old(Data()), uid, d, sanitize(name)), sanitize(name), now)
      ensures !ok ==> Data() == old(Data())
    {
      if name == "" {
        return false;
      }
      if !AllowedFile(name) {
        // a warning naming the skipped file is flashed
        return false;
      }
      var fname := sanitize(name);
      var prefix := FreshPrefix(files, uid, d, fname);
      var path := StoragePath(uid, d, prefix, fname);
      files := files + {path};
      images := images[nextImageId := Image(eid, path, fname, now)];
      nextImageId := nextImageId + 1;
      ok := true;
    }

    /**
     * The loop of `upload_images` over the uploaded files of entry `eid`, the
     * entry at (uid, d): the kept uploads are stored in order; `saved` counts them.
     */
    method SaveUploads(eid: nat, uid: nat, d: string, uploads: seq<string>, sanitize: string -> string, now: string)
      returns (saved: nat)
      modifies this
      ensures saved == |Accepted(uploads)| && session == old(session)
      ensures Data() == SaveAll(old(Data()), eid, uid, d, Accepted(uploads), sanitize, now)
    {
      ghost var start := Data();
      ghost var stored: seq<string> := [];
      saved := 0;
      var i := 0;
      while i < |uploads|
        invariant 0 <= i <= |uploads|
        invariant session == old(session)
        invariant saved == |stored|
        invariant stored == Accepted(uploads[..i])
        invariant Data() == SaveAll(start, eid, uid, d, stored, sanitize, now)
      {
        var name := uploads[i];
        AcceptedStep(uploads, i);
        var ok := SaveUpload(eid, uid, d, name, sanitize, now);
        if ok {
          saved := saved + 1;
          SaveAllSnoc(start, eid, uid, d, stored, name, sanitize, now);
          stored := stored + [name];
        }
        i := i + 1;
      }
      assert uploads[..i] == uploads;
    }

    /**
     * POST `/entry/upload`. Behind the guards and the date check, the entry
     * for the date is created empty when missing; then every upload with a
     * non-empty, allowed name is stored, in order, under a fresh path in the
     * user's directory for that date, as a new image row of that entry.
     * `sanitize` stands for `secure_filename`; the row keeps its output as the
     * original name. `saved` counts the stored files. Every entry keeps a
     * valid date.
     */
    method UploadImages(formToken: Option<string>, date: Option<string>, uploads: seq<string>,
                        sanitize: string -> string, now: string)
      returns (resp: Response, saved: nat)
      requires Valid()
      modifies this
      ensures Valid()
      ensures AllDated(old(entries)) ==> AllDated(entries)
      ensures !Admitted(old(session), formToken) ==>
        resp == Refusal(old(session), "/entry/upload") && saved == 0 && State() == old(State())
      ensures Admitted(old(session), formToken) && !DateOk(date) ==>
        resp == BadRequest && saved == 0 && State() == old(State())
      ensures Admitted(old(session), formToken) && DateOk(date) ==>
        var uid := CurrentUser(old(session)).value;
        && resp == RedirectToEntry(date) && session == old(session)
        && saved == |Accepted(uploads)|
        && |EntriesAt(entries, uid, date.value)| == 1
        && Stored(Placeholder(old(Data()), uid, date.value, now), Data(), uid, date.value,
                  Accepted(uploads), sanitize, now)
    {
      var user := CurrentUser(session);
      if user.None? {
        return RedirectToLogin(Some("/entry/upload")), 0;
      }
      if !CsrfValid(session, formToken) {
        return BadRequest, 0;
      }
      if !DateOk(date) {
        return BadRequest, 0;
      }
      if AllDated(entries) {
        PlaceholderDated(Data(), user.value, date.value, now);
      }
      saved := StoreUploads(user.value, date.value, uploads, sanitize, now);
      resp := RedirectToEntry(date);
    }

    /**
     * The body of `upload_images` once the guards pass: the placeholder step
     * for (uid, d), then the upload loop over the entry it leaves.
     */
    method StoreUploads(uid: nat, d: string, uploads: seq<string>, sanitize: string -> string, now: string)
      returns (saved: nat)
      requires Valid() && uid in users
      modifies this
      ensures Valid() && session == old(session)
      ensures saved == |Accepted(uploads)|
      ensures |EntriesAt(entries, uid, d)| == 1
      ensures Stored(Placeholder(old(Data()), uid, d, now), Data(), uid, d, Accepted(uploads), sanitize, now)
    {
      ghost var placed := Placeholder(Data(), uid, d, now);
      PlaceholderSpec(Data(), uid, d, now);
      var eid := EnsureEntry(uid, d, now);
      saved := SaveUploads(eid, uid, d, uploads, sanitize, now);
      SaveAllStored(placed, eid, uid, d, Accepted(uploads), sanitize, now);
    }

    /** The first step of `upload_images`: the entry of (uid, d), created empty when missing. */
    method EnsureEntry(uid: nat, d: string, now: string) returns (eid: nat)
      requires Valid()
      modifies this
      ensures Data() == Placeholder(old(Data()), uid, d, now) && session == old(session)
      ensures eid in EntriesAt(entries, uid, d)
    {
      var row := FindEntry(uid, d);
      ghost var db := Data();
      if row.None? {
        eid := nextEntryId;
        entries := entries[eid := Entry(uid, d, "", "", now, now)];
        nextEntryId := nextEntryId + 1;
        assert Data() == InsertEntry(db, Entry(uid, d, "", "", now, now));
      } else {
        eid := row.value;
      }
    }

    /**
     * POST `/entry/delete`. Behind the guards and the date check, the entry for
     * the date (if any) goes, with its image rows and their files; the file
     * loop runs before the rows are deleted, and a file already gone is skipped.
     */
    method DeleteEntry(formToken: Option<string>, date: Option<string>) returns (resp: Response)
      requires Valid()
      modifies this
      ensures Valid()
      ensures !Admitted(old(session), formToken) ==>
        resp == Refusal(old(session), "/entry/delete") && State() == old(State())
      ensures Admitted(old(session), formToken) && !DateOk(date) ==>
        resp == BadRequest && State() == old(State())
      ensures Admitted(old(session), formToken) && DateOk(date) ==>
        && resp == RedirectToDashboard && session == old(session)
        && Data() == DeleteByDate(old(Data()), CurrentUser(old(session)).value, date.value)
    {
      var user := CurrentUser(session);
      if user.None? {
        return RedirectToLogin(Some("/entry/delete"));
      }
      if !CsrfValid(session, formToken) {
        return BadRequest;
      }
      if !DateOk(date) {
        return BadRequest;
      }
      var uid, d := user.value, date.value;
      var row := FindEntry(uid, d);
      if row.Some? {
        var eid := row.value;
        DropEntryInv(Data(), eid);
        DeleteByDateOf(Data(), uid, d, eid);
        RemoveEntry(eid);
      }
      resp := RedirectToDashboard;
    }

    /** The body of `delete_entry` once the entry `eid` is found: its files, its image rows, then the entry. */
    method RemoveEntry(eid: nat)
      modifies this
      ensures Data() == DropEntry(old(Data()), eid) && session == old(session)
    {
      var doomed := ImagesOf(images, eid);
      RemoveFiles(doomed);
      images := map id | id in images && images[id].entryId != eid :: images[id];
      entries := entries - {eid};
    }

    /** The file loop of `delete_entry`: the file of each image in `doomed` is removed; a file already gone is skipped. */
    method RemoveFiles(doomed: set<nat>)
      requires doomed <= images.Keys
      modifies this
      ensures files == old(files) - PathsOf(images, doomed)
      ensures Data() == old(Data()).(files := files) && session == old(session)
    {
      var pending := doomed;
      while pending != {}
        invariant pending <= doomed
        invariant Data() == old(Data()).(files := files) && session == old(session)
        invariant files == old(files) - PathsOf(images, doomed - pending)
        decreases pending
      {
        var id :| id in pending;
        assert PathsOf(images, doomed - (pending - {id})) == PathsOf(images, doomed - pending) + {images[id].path};
        files := files - {images[id].path};
        pending := pending - {id};
      }
      assert doomed - pending == doomed;
    }

    /**
     * POST `/image/delete`. Behind the guards, the image goes (row and file)
     * only when the entry it belongs to is the current user's; an image of
     * another user or an id naming no image changes nothing.
     */
    method DeleteImage(formToken: Option<string>, imageId: Option<nat>, date: Option<string>) returns (resp: Response)
      requires Valid()
      modifies this
      ensures Valid()
      ensures !Admitted(old(session), formToken) ==>
        resp == Refusal(old(session), "/image/delete") && State() == old(State())
      ensures Admitted(old(session), formToken) ==>
        && resp == RedirectToEntry(date) && session == old(session)
        && Data() == DeleteImageAs(old(Data()), CurrentUser(old(session)).value, imageId)
    {
      var user := CurrentUser(session);
      if user.None? {
        return RedirectToLogin(Some("/image/delete"));
      }
      if !CsrfValid(session, formToken) {
        return BadRequest;
      }
      var uid := user.value;
      DeleteImageSpec(Data(), uid, imageId);
      if imageId.Some? && imageId.value in images && images[imageId.value].entryId in entries
         && entries[images[imageId.value].entryId].userId == uid
      {
        var id := imageId.value;
        files := files - {images[id].path};
        images := images - {id};
      }
      resp := RedirectToEntry(date);
    }
  }
}
