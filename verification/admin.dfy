/**
 * The administrator routes of app/routes/admin.py: the database folders
 * under the databases root (create, list, delete), the SQL user table
 * (create, delete, promote), and the vector-store wipe `reset_chroma`.
 * The filesystem is a map from entry name to entry kind, the user table a
 * map from primary key to row; the password hash of app/core/security.py,
 * which is not part of this model, is a function parameter.
 */
module Admin {
  import opened Util
  import opened Metadata
  import Corpus

  // ---------------------------------------------------------------------
  // Database folders
  // ---------------------------------------------------------------------

  /** What a name under the databases root refers to: a database folder, or
      a plain file such as the active-database record `active_db.json`. */
  datatype Kind = Directory | RegularFile

  /** The entries directly under the databases root. */
  type Root = map<string, Kind>

  const MinNameLength: nat := 3
  const MaxNameLength: nat := 20

  const InvalidNameText := "Invalid name. Use 3-20 letters/numbers/underscores only."
  const DatabaseExistsText := "Database already exists."
  const ActiveDatabaseText := "Cannot delete the currently ACTIVE database. Switch to another one first."
  const DatabaseMissingText := "Database not found."

  /** The pattern `^[a-zA-Z0-9_]{3,20}$`. */
  predicate ValidDbName(name: string) {
    && MinNameLength <= |name| <= MaxNameLength
    && forall i :: 0 <= i < |name| ==> IsWordChar(name[i])
  }

  /** `create_database`: the requested name (missing counts as empty) is
      stripped, must match the pattern, and must not name an existing entry;
      then a folder of that name is added and nothing else changes. */
  function CreateDatabase(root: Root, name: Option<string>): (r: (Result<string, HttpError>, Root))
    ensures var n := Strip(name.GetOr(""));
            && (r.0.Ok? <==> ValidDbName(n) && n !in root)
            && (r.0.Ok? ==> r.1 == root[n := Directory] && n !in root)
            && (r.0.Err? ==> r.1 == root && r.0.error.status == 400)
            && (!ValidDbName(n) ==> r.0 == Err(HttpError(400, InvalidNameText)))
  {
    var n := Strip(name.GetOr(""));
    if n == "" || !ValidDbName(n) then (Err(HttpError(400, InvalidNameText)), root)
    else if n in root then (Err(HttpError(400, DatabaseExistsText)), root)
    else (Ok("Database '" + n + "' created successfully."), root[n := Directory])
  }

  /** `delete_database`: the active database is refused before anything
      else, a missing name is a 404, and an existing entry is removed with
      `shutil.rmtree`, which fails on an entry that is not a folder. */
  function DeleteDatabase(root: Root, active: string, name: string): (r: (Result<string, HttpError>, Root))
    ensures name == active ==> r == (Err(HttpError(400, ActiveDatabaseText)), root)
    ensures name != active && name !in root ==> r == (Err(HttpError(404, DatabaseMissingText)), root)
    ensures r.0.Ok? <==> name != active && name in root && root[name].Directory?
    ensures r.0.Ok? ==> r.1 == root - {name}
    ensures r.0.Err? ==> r.1 == root
  {
    if name == active then (Err(HttpError(400, ActiveDatabaseText)), root)
    else if name !in root then (Err(HttpError(404, DatabaseMissingText)), root)
    else if root[name].RegularFile? then (Err(HttpError(500, "Error deleting database: Not a directory")), root)
    else (Ok("Database '" + name + "' deleted."), root - {name})
  }

  /** Whatever is asked for, the active database is still there afterwards. */
  lemma ActiveDatabaseSurvives(root: Root, active: string, name: string)
    requires active in root
    ensures active in DeleteDatabase(root, active, name).1
  {
  }

  /** A second request for the same name fails and changes nothing. */
  lemma CreateDatabaseTwiceFails(root: Root, name: Option<string>)
    requires CreateDatabase(root, name).0.Ok?
    ensures var root' := CreateDatabase(root, name).1;
            CreateDatabase(root', name) == (Err(HttpError(400, DatabaseExistsText)), root')
  {
  }

  /** Deleting a database just created (when it is not the active one)
      succeeds and restores the root. */
  lemma CreateThenDeleteRestores(root: Root, active: string, name: Option<string>)
    requires CreateDatabase(root, name).0.Ok?
    requires Strip(name.GetOr("")) != active
    ensures var root' := CreateDatabase(root, name).1;
            && DeleteDatabase(root', active, Strip(name.GetOr(""))).0.Ok?
            && DeleteDatabase(root', active, Strip(name.GetOr(""))).1 == root
  {
    var n := Strip(name.GetOr(""));
    assert root[n := Directory] - {n} == root;
  }

  // ---------------------------------------------------------------------
  // Listing the databases
  // ---------------------------------------------------------------------

  /** Python's `<=` on `str`: lexicographic by code point. */
  predicate LexLe(a: string, b: string)
    decreases |a|
  {
    a == [] || (b != [] && (a[0] < b[0] || (a[0] == b[0] && LexLe(a[1..], b[1..]))))
  }

  lemma {:induction false} LexReflexive(a: string)
    ensures LexLe(a, a)
    decreases |a|
  {
    if a != [] {
      LexReflexive(a[1..]);
    }
  }

  lemma {:induction false} LexTotal(a: string, b: string)
    ensures LexLe(a, b) || LexLe(b, a)
    decreases |a|
  {
    if a != [] && b != [] && a[0] == b[0] {
      LexTotal(a[1..], b[1..]);
    }
  }

  lemma {:induction false} LexAntisymmetric(a: string, b: string)
    requires LexLe(a, b) && LexLe(b, a)
    ensures a == b
    decreases |a|
  {
    if a != [] {
      LexAntisymmetric(a[1..], b[1..]);
      assert a == [a[0]] + a[1..] && b == [b[0]] + b[1..];
    }
  }

  lemma {:induction false} LexTransitive(a: string, b: string, c: string)
    requires LexLe(a, b) && LexLe(b, c)
    ensures LexLe(a, c)
    decreases |a|
  {
    if a != [] && a[0] == b[0] && b[0] == c[0] {
      LexTransitive(a[1..], b[1..], c[1..]);
    }
  }

  predicate SortedNames(s: seq<string>) {
    forall i, j :: 0 <= i < j < |s| ==> LexLe(s[i], s[j])
  }

  function InsertName(x: string, s: seq<string>): (r: seq<string>)
    ensures multiset(r) == multiset(s) + multiset{x}
  {
    if s == [] then [x]
    else if LexLe(x, s[0]) then [x] + s
    else
      assert s == [s[0]] + s[1..];
      [s[0]] + InsertName(x, s[1..])
  }

  lemma {:induction false} InsertNameSorted(x: string, s: seq<string>)
    requires SortedNames(s)
    ensures SortedNames(InsertName(x, s))
    decreases |s|
  {
    if s == [] {
    } else if LexLe(x, s[0]) {
      var r := [x] + s;
      forall i, j | 0 <= i < j < |r|
        ensures LexLe(r[i], r[j])
      {
        if i == 0 && j > 1 {
          LexTransitive(x, s[0], s[j - 1]);
        }
      }
    } else {
      LexTotal(x, s[0]);
      InsertNameSorted(x, s[1..]);
      var t := InsertName(x, s[1..]);
      var r := [s[0]] + t;
      forall i, j | 0 <= i < j < |r|
        ensures LexLe(r[i], r[j])
      {
        if i == 0 {
          var y := t[j - 1];
          assert y in multiset(t);
          assert y in multiset(s[1..]) || y == x;
          if y != x {
            var k :| 0 <= k < |s[1..]| && s[1..][k] == y;
            assert s[k + 1] == y;
          }
        }
      }
    }
  }

  /** `sorted(...)` on a list of names. */
  function SortNames(xs: seq<string>): (r: seq<string>)
    ensures multiset(r) == multiset(xs)
  {
    if xs == [] then []
    else
      assert xs == [xs[0]] + xs[1..];
      InsertName(xs[0], SortNames(xs[1..]))
  }

  lemma {:induction false} SortNamesSorted(xs: seq<string>)
    ensures SortedNames(SortNames(xs))
    decreases |xs|
  {
    if xs != [] {
      SortNamesSorted(xs[1..]);
      InsertNameSorted(xs[0], SortNames(xs[1..]));
    }
  }

  /** The head of a sorted list is below every name in it. */
  lemma SortedHeadLeast(a: seq<string>, x: string)
    requires SortedNames(a) && x in a
    ensures LexLe(a[0], x)
  {
    var i :| 0 <= i < |a| && a[i] == x;
    if i == 0 {
      LexReflexive(x);
    }
  }

  lemma TailsSameElements(a: seq<string>, b: seq<string>)
    requires a != [] && b != [] && a[0] == b[0]
    requires multiset(a) == multiset(b)
    ensures multiset(a[1..]) == multiset(b[1..])
  {
    assert a == [a[0]] + a[1..] && b == [b[0]] + b[1..];
    assert multiset(a[1..]) == multiset(a) - multiset{a[0]};
    assert multiset(b[1..]) == multiset(b) - multiset{b[0]};
  }

  lemma SortedTail(a: seq<string>)
    requires SortedNames(a) && a != []
    ensures SortedNames(a[1..])
  {
    forall i, j | 0 <= i < j < |a| - 1
      ensures LexLe(a[1..][i], a[1..][j])
    {
      assert a[1..][i] == a[i + 1] && a[1..][j] == a[j + 1];
    }
  }

  /** Two sorted lists with the same names are the same list. */
  lemma {:induction false} SortedNamesUnique(a: seq<string>, b: seq<string>)
    requires SortedNames(a) && SortedNames(b)
    requires multiset(a) == multiset(b)
    ensures a == b
    decreases |a|
  {
    assert |a| == |multiset(a)| == |multiset(b)| == |b|;
    if a != [] {
      var x, y := a[0], b[0];
      assert x in multiset(b) && y in multiset(a);
      SortedHeadLeast(b, x);
      SortedHeadLeast(a, y);
      LexAntisymmetric(x, y);
      TailsSameElements(a, b);
      SortedTail(a);
      SortedTail(b);
      SortedNamesUnique(a[1..], b[1..]);
      assert a == [x] + a[1..] && b == [y] + b[1..];
    }
  }

  /** One entry of `DB_ROOT.iterdir()`. */
  datatype DirEntry = DirEntry(name: string, kind: Kind)

  /** The names of the folders among the entries, in listing order. */
  function FolderNames(entries: seq<DirEntry>): (names: seq<string>)
    ensures |names| <= |entries|
  {
    if entries == [] then []
    else (if entries[0].kind == Directory then [entries[0].name] else []) + FolderNames(entries[1..])
  }

  lemma {:induction false} FolderNamesCount(entries: seq<DirEntry>, n: string)
    ensures multiset(FolderNames(entries))[n] == multiset(entries)[DirEntry(n, Directory)]
    decreases |entries|
  {
    if entries != [] {
      FolderNamesCount(entries[1..], n);
      assert entries == [entries[0]] + entries[1..];
    }
  }

  /** `list_databases_admin`: no root means no databases; otherwise the
      folder names, sorted. */
  function ListDatabases(entries: Option<seq<DirEntry>>): (r: seq<string>)
    ensures entries.None? ==> r == []
    ensures entries.Some? ==> multiset(r) == multiset(FolderNames(entries.value))
    ensures SortedNames(r)
  {
    if entries.None? then []
    else
      SortNamesSorted(FolderNames(entries.value));
      SortNames(FolderNames(entries.value))
  }

  /** The listing does not depend on the order in which the directory is
      enumerated. */
  lemma ListDatabasesOrderFree(a: seq<DirEntry>, b: seq<DirEntry>)
    requires multiset(a) == multiset(b)
    ensures ListDatabases(Some(a)) == ListDatabases(Some(b))
  {
    forall n: string
      ensures multiset(FolderNames(a))[n] == multiset(FolderNames(b))[n]
    {
      FolderNamesCount(a, n);
      FolderNamesCount(b, n);
    }
    assert multiset(FolderNames(a)) == multiset(FolderNames(b));
    SortedNamesUnique(ListDatabases(Some(a)), ListDatabases(Some(b)));
  }

  /** `entries` is an enumeration of the root. */
  predicate Enumerates(entries: seq<DirEntry>, root: Root) {
    && (forall n :: n in root ==> DirEntry(n, root[n]) in entries)
    && (forall e :: e in entries ==> e.name in root && root[e.name] == e.kind)
  }

  /** A freshly created database shows up in the listing. */
  lemma CreatedIsListed(root: Root, name: Option<string>, entries: seq<DirEntry>)
    requires CreateDatabase(root, name).0.Ok?
    requires Enumerates(entries, CreateDatabase(root, name).1)
    ensures Strip(name.GetOr("")) in ListDatabases(Some(entries))
  {
    var n := Strip(name.GetOr(""));
    var root' := CreateDatabase(root, name).1;
    assert n in root' && root'[n] == Directory;
    assert DirEntry(n, Directory) in entries;
    FolderNamesCount(entries, n);
    assert n in multiset(ListDatabases(Some(entries)));
  }

  // ---------------------------------------------------------------------
  // Users
  // ---------------------------------------------------------------------

  /** A row of the `users` table. */
  datatype User = User(id: nat, username: string, hashedPassword: string, role: string)

  /** The `users` table by primary key. */
  type Users = map<nat, User>

  const MinPasswordLength: nat := 4
  const DefaultRole := "user"
  const AdminRole := "admin"
  /** The user name the delete route refuses to remove. */
  const RootAdmin := "admin"

  /** Rows are stored under their own id and user names are unique, as the
      table's primary key and `unique=True` column demand. */
  predicate ValidUsers(users: Users) {
    && (forall id :: id in users ==> users[id].id == id)
    && (forall a, b :: a in users && b in users && users[a].username == users[b].username ==> a == b)
  }

  predicate UsernameTaken(users: Users, name: string) {
    exists id :: id in users && users[id].username == name
  }

  /** `create_user_admin`: missing fields count as empty; user name and
      password are stripped; an empty one, a password under four characters
      and a taken user name are refused (in that order) and nothing changes;
      otherwise one row is added under the id the database assigns, with the
      hashed password and the given role, "user" when none is given. */
  function CreateUser(users: Users, username: Option<string>, password: Option<string>,
                      role: Option<string>, hash: string -> string, newId: nat): (r: (Result<string, HttpError>, Users))
    requires newId !in users
    ensures var u := Strip(username.GetOr(""));
            var p := Strip(password.GetOr(""));
            && (r.0.Ok? <==> u != "" && |p| >= MinPasswordLength && !UsernameTaken(users, u))
            && (r.0.Err? ==> r.0.error.status == 400 && r.1 == users)
            && (r.0.Ok? ==> r.1 == users[newId := User(newId, u, hash(p), role.GetOr(DefaultRole))])
  {
    var u := Strip(username.GetOr(""));
    var p := Strip(password.GetOr(""));
    if u == "" || p == "" then (Err(HttpError(400, "Username and password are required.")), users)
    else if |p| < MinPasswordLength then (Err(HttpError(400, "Password must be at least 4 characters.")), users)
    else if UsernameTaken(users, u) then (Err(HttpError(400, "Username already exists.")), users)
    else (Ok("User '" + u + "' created."), users[newId := User(newId, u, hash(p), role.GetOr(DefaultRole))])
  }

  /** Creating users keeps ids and names unique, and the new user is found
      under the stripped name. */
  lemma CreateUserKeepsValid(users: Users, username: Option<string>, password: Option<string>,
                             role: Option<string>, hash: string -> string, newId: nat)
    requires newId !in users
    requires ValidUsers(users)
    ensures ValidUsers(CreateUser(users, username, password, role, hash, newId).1)
    ensures CreateUser(users, username, password, role, hash, newId).0.Ok? ==>
              UsernameTaken(CreateUser(users, username, password, role, hash, newId).1, Strip(username.GetOr("")))
  {
    var r := CreateUser(users, username, password, role, hash, newId);
    if r.0.Ok? {
      var u := Strip(username.GetOr(""));
      var row := User(newId, u, hash(Strip(password.GetOr(""))), role.GetOr(DefaultRole));
      assert r.1 == users[newId := row];
      AddUserKeepsValid(users, row);
      assert r.1[newId].username == u;
    }
  }

  /** Adding a row under a fresh id with a fresh user name keeps ids and
      names unique. */
  lemma AddUserKeepsValid(users: Users, row: User)
    requires ValidUsers(users)
    requires row.id !in users && !UsernameTaken(users, row.username)
    ensures ValidUsers(users[row.id := row])
  {
    var users' := users[row.id := row];
    forall a, b | a in users' && b in users' && users'[a].username == users'[b].username
      ensures a == b
    {
      if a != row.id && b != row.id {
        assert users'[a] == users[a] && users'[b] == users[b];
      }
    }
  }

  /** `delete_user`: an unknown id is a 404, the user named "admin" is a
      400, and otherwise exactly that row is removed. */
  function DeleteUser(users: Users, id: nat): (r: (Result<string, HttpError>, Users))
    ensures id !in users ==> r == (Err(HttpError(404, "User not found")), users)
    ensures id in users && users[id].username == RootAdmin ==> r.0.Err? && r.0.error.status == 400 && r.1 == users
    ensures r.0.Ok? <==> id in users && users[id].username != RootAdmin
    ensures r.0.Ok? ==> r.1 == users - {id}
  {
    if id !in users then (Err(HttpError(404, "User not found")), users)
    else if users[id].username == RootAdmin then (Err(HttpError(400, "Cannot delete the root admin.")), users)
    else (Ok("User " + users[id].username + " deleted."), users - {id})
  }

  /** No sequence of deletions removes the root admin. */
  lemma RootAdminSurvives(users: Users, id: nat, admin: nat)
    requires admin in users && users[admin].username == RootAdmin
    ensures var users' := DeleteUser(users, id).1;
            admin in users' && users'[admin] == users[admin]
  {
  }

  /** Deleting keeps ids and names unique. */
  lemma DeleteUserKeepsValid(users: Users, id: nat)
    requires ValidUsers(users)
    ensures ValidUsers(DeleteUser(users, id).1)
  {
  }

  /** `promote_user`: an unknown id is a 404; otherwise that user's role
      becomes "admin" and nothing else about any row changes. */
  function PromoteUser(users: Users, id: nat): (r: (Result<string, HttpError>, Users))
    ensures r.0.Ok? <==> id in users
    ensures r.0.Err? ==> r == (Err(HttpError(404, "User not found")), users)
    ensures r.1.Keys == users.Keys
    ensures r.0.Ok? ==> r.1[id].role == AdminRole
    ensures forall k :: k in users ==> r.1[k].(role := users[k].role) == users[k]
    ensures forall k :: k in users && k != id ==> r.1[k] == users[k]
  {
    if id !in users then (Err(HttpError(404, "User not found")), users)
    else (Ok("User " + users[id].username + " is now an Admin."), users[id := users[id].(role := AdminRole)])
  }

  /** Promoting twice is the same as promoting once, and promotion keeps
      ids and names unique. */
  lemma PromoteIdempotent(users: Users, id: nat)
    requires ValidUsers(users)
    ensures PromoteUser(PromoteUser(users, id).1, id).1 == PromoteUser(users, id).1
    ensures ValidUsers(PromoteUser(users, id).1)
  {
    var once := PromoteUser(users, id).1;
    var twice := PromoteUser(once, id).1;
    assert twice.Keys == once.Keys;
    forall k | k in once
      ensures twice[k] == once[k]
    {
      if k == id {
        assert twice[k] == once[k].(role := AdminRole);
      }
    }
  }

  // ---------------------------------------------------------------------
  // reset_chroma
  // ---------------------------------------------------------------------

  /** The `file_id` values `reset_chroma` deletes successfully, in listing
      order: the truthy ones whose delete does not raise (`failing` is the
      set of ids whose delete the store rejects). */
  function Wiped(entries: seq<FileEntry>, failing: set<string>): (ids: seq<string>)
    ensures |ids| <= |entries|
    ensures forall x :: x in ids <==>
              (exists i :: 0 <= i < |entries| && entries[i].fileId == Some(x)) && x != "" && x !in failing
  {
    if entries == [] then []
    else
      var rest := Wiped(entries[1..], failing);
      var f := entries[0].fileId;
      assert forall i :: 0 < i < |entries| ==> entries[i] == entries[1..][i - 1];
      if Truthy(f) && f.value !in failing then [f.value] + rest else rest
  }

  /** Deleting `{"file_id": id}` for each id in turn. */
  function DeleteEach(store: seq<Chunk>, ids: seq<string>): (r: seq<Chunk>)
    ensures forall c :: c in r <==> c in store && (c.meta.fileId.None? || c.meta.fileId.value !in ids)
    decreases |ids|
  {
    if ids == [] then store
    else
      var once := Corpus.DeleteWhere(store, Corpus.ByFileId(ids[0]));
      forall c
        ensures c in once <==> c in store && c.meta.fileId != Some(ids[0])
      {
        Corpus.DeleteWhereMembers(store, Corpus.ByFileId(ids[0]), c);
        Corpus.HoldsByFileId(c.meta, ids[0]);
      }
      assert forall x :: x in ids <==> x == ids[0] || x in ids[1..];
      DeleteEach(once, ids[1..])
  }

  /** The two Chroma collections the application opens: `docs`, the one of
      app/config.py that upload, delete_file, list_files and ask_question
      read and write; and `active`, the one of the active database
      (app/core/db.py:48-60) that `delete_from_collection` deletes from. They
      live under different paths. */
  datatype Collections = Collections(docs: seq<Chunk>, active: seq<Chunk>)

  /** The loop of `reset_chroma` over a listing, with its deletes applied to
      `target`: the count is the number of successful deletes, and the
      chunks left are exactly those whose `file_id` was not among them. */
  function WipeListed(listing: Listing, target: seq<Chunk>, failing: set<string>): (r: (nat, seq<Chunk>))
    ensures r.0 == |Wiped(Entries(listing), failing)| <= |Entries(listing)|
    ensures forall c :: c in r.1 <==>
              c in target && (c.meta.fileId.None? || c.meta.fileId.value !in Wiped(Entries(listing), failing))
  {
    var ids := Wiped(Entries(listing), failing);
    (|ids|, DeleteEach(target, ids))
  }

  /** `reset_chroma` as written: the listing is `list_files` over the
      documents collection, the deletes go to the active database's
      collection, and the documents collection is never written. */
  function ResetChroma(cols: Collections, failing: set<string>): (r: (nat, Collections))
    ensures r.1.docs == cols.docs
    ensures var listing := Corpus.ListFiles(Metas(cols.docs));
            && r.0 == |Wiped(Entries(listing), failing)|
            && forall c :: c in r.1.active <==>
                 c in cols.active && (c.meta.fileId.None? || c.meta.fileId.value !in Wiped(Entries(listing), failing))
  {
    var w := WipeListed(Corpus.ListFiles(Metas(cols.docs)), cols.active, failing);
    (w.0, Collections(cols.docs, w.1))
  }

  /** The reset evidently intended: list the collection with its ids and
      delete from that same collection. */
  function ResetIntended(store: seq<Chunk>, failing: set<string>): (r: (nat, seq<Chunk>))
    ensures forall c :: c in r.1 ==> c in store
  {
    WipeListed(Corpus.ListFilesWithIds(Metas(store)), store, failing)
  }

  /** Entries without a `file_id` wipe nothing. */
  lemma {:induction false} WipedNothing(entries: seq<FileEntry>, failing: set<string>)
    requires forall e :: e in entries ==> e.fileId.None?
    ensures Wiped(entries, failing) == []
    decreases |entries|
  {
    if entries != [] {
      assert entries[0] in entries;
      assert forall e :: e in entries[1..] ==> e in entries;
      WipedNothing(entries[1..], failing);
    }
  }

  /** `reset_chroma` as written: `list_files` entries carry no `file_id`, so
      it reports zero files wiped and neither collection changes. */
  lemma ResetAsWrittenWipesNothing(cols: Collections, failing: set<string>)
    ensures ResetChroma(cols, failing) == (0, cols)
  {
    WipedNothing(Entries(Corpus.ListFiles(Metas(cols.docs))), failing);
  }

  /** Deleting ids that no chunk carries leaves the collection as it was. */
  lemma {:induction false} DeleteEachNone(store: seq<Chunk>, ids: seq<string>)
    requires forall c :: c in store ==> c.meta.fileId.None? || c.meta.fileId.value !in ids
    ensures DeleteEach(store, ids) == store
    decreases |ids|
  {
    if ids != [] {
      forall c | c in store
        ensures !Holds(Corpus.ByFileId(ids[0]), c.meta)
      {
        Corpus.HoldsByFileId(c.meta, ids[0]);
      }
      Corpus.DeleteWhereNone(store, Corpus.ByFileId(ids[0]));
      DeleteEachNone(store, ids[1..]);
    }
  }

  /** Giving the listing its ids is not enough on its own: with the deletes
      still going to the active database's collection, a documents
      collection holding an identified file reports a file wiped while an
      active collection sharing none of its ids keeps every chunk. */
  lemma ListingFixAloneDeletesElsewhere(cols: Collections, k: string)
    requires k != "" && k in Corpus.Keys(Metas(cols.docs))
    requires forall c :: c in cols.active ==> c.meta.fileId.None? || c.meta.fileId.value !in Corpus.Keys(Metas(cols.docs))
    ensures var w := WipeListed(Corpus.ListFilesWithIds(Metas(cols.docs)), cols.active, {});
            w.0 > 0 && w.1 == cols.active
  {
    var ids := Wiped(Entries(Corpus.ListFilesWithIds(Metas(cols.docs))), {});
    WipedIffStoredKey(Metas(cols.docs), k);
    forall c | c in cols.active
      ensures c.meta.fileId.None? || c.meta.fileId.value !in ids
    {
      if c.meta.fileId.Some? {
        WipedIffStoredKey(Metas(cols.docs), c.meta.fileId.value);
      }
    }
    DeleteEachNone(cols.active, ids);
  }

  /** With ids in the listing and no failing delete, the ids wiped are the
      non-empty stored keys. */
  lemma WipedIffStoredKey(metas: seq<Meta>, x: string)
    ensures x in Wiped(Entries(Corpus.ListFilesWithIds(metas)), {}) <==> x != "" && x in Corpus.Keys(metas)
  {
    WipedOnlyStoredKey(metas, x);
    StoredKeyWiped(metas, x);
  }

  lemma WipedOnlyStoredKey(metas: seq<Meta>, x: string)
    ensures x in Wiped(Entries(Corpus.ListFilesWithIds(metas)), {}) ==> x in Corpus.Keys(metas)
  {
    var entries := Entries(Corpus.ListFilesWithIds(metas));
    if x in Wiped(entries, {}) {
      var j :| 0 <= j < |entries| && entries[j].fileId == Some(x);
      assert entries[j] in entries;
      Corpus.ListFilesWithIdsKeys(metas, x);
    }
  }

  lemma StoredKeyWiped(metas: seq<Meta>, x: string)
    ensures x != "" && x in Corpus.Keys(metas) ==> x in Wiped(Entries(Corpus.ListFilesWithIds(metas)), {})
  {
    var entries := Entries(Corpus.ListFilesWithIds(metas));
    if x != "" && x in Corpus.Keys(metas) {
      Corpus.ListFilesWithIdsKeys(metas, x);
      var e :| e in entries && e.fileId == Some(x);
      var i :| 0 <= i < |entries| && entries[i] == e;
    }
  }

  /** The intended reset with no failing delete leaves only chunks without a
      non-empty `file_id`. */
  lemma ResetWithIdsWipesIdentified(store: seq<Chunk>, c: Chunk)
    requires c in ResetIntended(store, {}).1
    ensures c.meta.fileId == None || c.meta.fileId == Some("")
  {
    var listing := Corpus.ListFilesWithIds(Metas(store));
    var ids := Wiped(Entries(listing), {});
    assert c in store && (c.meta.fileId.None? || c.meta.fileId.value !in ids);
    if c.meta.fileId.Some? && c.meta.fileId.value != "" {
      var v := c.meta.fileId.value;
      var i :| 0 <= i < |store| && store[i] == c;
      assert Corpus.Keys(Metas(store))[i] == v;
      StoredKeyWiped(Metas(store), v);
    }
  }
}
