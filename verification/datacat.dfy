/**
 * The request handlers of datacat.py that change state: the login gate,
 * login with implicit sign-up, logout, and the dataset handlers for reorder,
 * create, update, delete and fetch. The two tables and the session are the
 * fields of `Catalogue`; the table library is a finite map keyed by the
 * primary key, with a counter for fresh ids.
 */
module DataCatalogue {
  import opened Wrappers
  import opened Records
  import opened Reordering
  import Utf8

  /** The status of every redirect the app sends (303 See Other). */
  const SeeOther := 303
  const LoginPath := "/login"
  const HomePath := "/"

  /** What a handler sends back, reduced to what the model can state. */
  datatype Response =
    | Redirect(location: string, status: int)
    | Rows(records: seq<Dataset>)    // a list of rows, each rendered by `Dataset.__ft__`
    | Row(record: Dataset)           // one row, rendered
    | DetailsCleared                 // `clr_details()`: empties the detail panel
    | NotFound                       // the table raised NotFoundError
    | KeyError                       // `del sess['auth']` on a session without it

  /** The outcome of the Beforeware for one request. */
  datatype Gate =
    | Bypass                         // the path is on the skip list: `before` does not run
    | Deny(response: Response)       // `before` answered in place of the handler
    | Admit(auth: string)            // the handler runs with `req.scope['auth']` set

  /** `re.fullmatch` of `r'/static/.*'`: `.` matches anything but a newline. */
  predicate IsStaticPath(path: string)
  {
    |path| >= 8 && path[..8] == "/static/" && '\n' !in path[8..]
  }

  /** `re.fullmatch` of `r'.*\.css'`. */
  predicate IsStylesheetPath(path: string)
  {
    |path| >= 4 && path[|path| - 4..] == ".css" && '\n' !in path[..|path| - 4]
  }

  /** The skip list of the Beforeware (datacat.py:34). */
  predicate OnSkipList(path: string)
  {
    path == "/favicon.ico" || IsStaticPath(path) || IsStylesheetPath(path) || path == LoginPath
  }

  /** Python's truth value of `sess.get('auth', None)`: present and not empty. */
  predicate IsTruthy(auth: Option<string>)
  {
    auth.Some? && auth.value != ""
  }

  class Catalogue {
    /** The `users` table: name (primary key) to password. */
    var users: map<string, string>
    /** The `datasets` table: id (primary key) to row. */
    var datasets: map<int, Dataset>
    /** Above every id the table has handed out. */
    var nextId: int
    /** The session's `auth` entry. */
    var auth: Option<string>

    ghost predicate Valid()
      reads this
    {
      // login only stores names and passwords that are not empty
      && (forall name :: name in users ==> name != "" && users[name] != "")
      // the session only names a registered user
      && (auth.Some? ==> auth.value in users)
      // rows are stored under their own id, and ids are handed out from nextId up
      && (forall id :: id in datasets ==> datasets[id].id == id && id < nextId)
    }

    /** A fresh database and a fresh session. */
    constructor ()
      ensures Valid()
      ensures users == map[] && datasets == map[] && auth == None
    {
      users := map[];
      datasets := map[];
      nextId := 1;
      auth := None;
    }

    /** The auth gate `before` (datacat.py:21-24), with the skip list it is registered with. */
    method Before(path: string) returns (g: Gate)
      requires Valid()
      ensures g == Bypass <==> OnSkipList(path)
      ensures g.Deny? <==> !OnSkipList(path) && auth.None?
      ensures g.Deny? ==> g.response == Redirect(LoginPath, SeeOther)
      ensures g.Admit? <==> !OnSkipList(path) && auth.Some?
      ensures g.Admit? ==> auth == Some(g.auth) && g.auth in users
    {
      if OnSkipList(path) {
        return Bypass;
      }
      var a := auth;
      if !IsTruthy(a) {
        return Deny(Redirect(LoginPath, SeeOther));
      }
      g := Admit(a.value);
    }

    /**
     * POST /login (datacat.py:61-67). An unknown name is registered with the
     * submitted password, so a first login always succeeds.
     */
    method Login(name: string, pwd: string) returns (r: Response)
      requires Valid()
      modifies this
      ensures Valid()
      ensures datasets == old(datasets) && nextId == old(nextId)
      // an empty field changes nothing
      ensures name == "" || pwd == "" ==>
                users == old(users) && auth == old(auth) && r == Redirect(LoginPath, SeeOther)
      // a new name: exactly one user is added, and the session logs in
      ensures name != "" && pwd != "" && name !in old(users) ==>
                users == old(users)[name := pwd] && auth == Some(name) && r == Redirect(HomePath, SeeOther)
      // a known name with another password changes nothing
      ensures name != "" && pwd != "" && name in old(users) && old(users)[name] != pwd ==>
                users == old(users) && auth == old(auth) && r == Redirect(LoginPath, SeeOther)
      // a known name with its password logs in
      ensures name != "" && pwd != "" && name in old(users) && old(users)[name] == pwd ==>
                users == old(users) && auth == Some(name) && r == Redirect(HomePath, SeeOther)
      // which attempts change the users table, and which log in
      ensures users != old(users) <==> name != "" && pwd != "" && name !in old(users)
      ensures r == Redirect(HomePath, SeeOther) <==>
                name != "" && pwd != "" && (name !in old(users) || old(users)[name] == pwd)
      ensures auth != old(auth) ==> auth == Some(name)
    {
      if name == "" || pwd == "" {
        return Redirect(LoginPath, SeeOther);
      }
      var storedName, storedPwd;
      if name in users {
        storedName, storedPwd := name, users[name];
      } else {
        users := users[name := pwd];
        storedName, storedPwd := name, pwd;
      }
      Utf8.SameEncodingIffEqual(storedPwd, pwd);
      if Utf8.Encode(storedPwd) != Utf8.Encode(pwd) {
        return Redirect(LoginPath, SeeOther);
      }
      auth := Some(storedName);
      r := Redirect(HomePath, SeeOther);
    }

    /**
     * GET /logout (datacat.py:70-72). `del` on a session without `auth`
     * raises; `LogoutRoute` shows that the gate never lets that happen.
     */
    method Logout() returns (r: Response)
      requires Valid()
      modifies this
      ensures Valid()
      ensures users == old(users) && datasets == old(datasets) && nextId == old(nextId)
      ensures auth == None
      ensures old(auth).Some? ==> r == Redirect(LoginPath, SeeOther)
      ensures old(auth).None? ==> r == KeyError
    {
      if auth.None? {
        return KeyError;
      }
      auth := None;
      r := Redirect(LoginPath, SeeOther);
    }

    /**
     * POST /reorder (datacat.py:105-107): position `i` of `ids` becomes the
     * priority of row `ids[i]`, one update at a time; then the rows are listed
     * by priority. An id with no row makes its update raise NotFoundError;
     * the updates before it have already been made.
     */
    method Reorder(ids: seq<int>) returns (r: Response)
      requires Valid()
      modifies this
      ensures Valid()
      ensures users == old(users) && auth == old(auth) && nextId == old(nextId)
      ensures var k := FirstMissing(ids, old(datasets));
              datasets == Reprioritized(old(datasets), ids[..k])
      ensures r.Rows? <==> FirstMissing(ids, old(datasets)) == |ids|
      ensures r.Rows? ==> ListsByPriority(r.records, datasets)
      ensures !r.Rows? ==> r == NotFound
    {
      var k := Reprioritize(ids);
      if k < |ids| {
        return NotFound;
      }
      var rows := ListByPriority();
      r := Rows(rows);
    }

    /**
     * The loop of `/reorder`: `datasets.update({'priority': i}, ids[i])` for
     * each position in turn, up to the first id that has no row.
     */
    method Reprioritize(ids: seq<int>) returns (k: nat)
      requires Valid()
      modifies this
      ensures Valid()
      ensures users == old(users) && auth == old(auth) && nextId == old(nextId)
      ensures k == FirstMissing(ids, old(datasets))
      ensures datasets == Reprioritized(old(datasets), ids[..k])
    {
      ghost var before := datasets;
      k := 0;
      while k < |ids|
        invariant 0 <= k <= |ids|
        invariant forall j :: 0 <= j < k ==> ids[j] in before
        invariant datasets == Reprioritized(before, ids[..k])
        invariant users == old(users) && auth == old(auth) && nextId == old(nextId)
        invariant Valid()
      {
        var id := ids[k];
        if id !in datasets {
          break;
        }
        ReprioritizedStep(before, ids, k);
        datasets := datasets[id := datasets[id].(priority := k)];
        k := k + 1;
      }
      FirstMissingAt(ids, before, k);
    }

    /** DELETE /datasets/{id} (datacat.py:112-114). */
    method Delete(id: int) returns (r: Response)
      requires Valid()
      modifies this
      ensures Valid()
      ensures users == old(users) && auth == old(auth) && nextId == old(nextId)
      ensures datasets == old(datasets) - {id}
      ensures r == if id in old(datasets) then DetailsCleared else NotFound
    {
      if id !in datasets {
        return NotFound;
      }
      datasets := datasets - {id};
      r := DetailsCleared;
    }

    /** PUT / (datacat.py:125-126): the submitted row replaces the stored row with its id. */
    method Update(d: Dataset) returns (r: Response)
      requires Valid()
      modifies this
      ensures Valid()
      ensures users == old(users) && auth == old(auth) && nextId == old(nextId)
      ensures d.id in old(datasets) ==> datasets == old(datasets)[d.id := d] && r == Row(d)
      ensures d.id !in old(datasets) ==> datasets == old(datasets) && r == NotFound
    {
      if d.id !in datasets {
        return NotFound;
      }
      datasets := datasets[d.id := d];
      r := Row(d);
    }

    /** POST / (datacat.py:129-131): the submitted row is stored under a fresh id. */
    method Create(d: Dataset) returns (r: Response)
      requires Valid()
      modifies this
      ensures Valid()
      ensures users == old(users) && auth == old(auth)
      ensures r.Row? && r.record == d.(id := r.record.id)
      ensures r.record.id !in old(datasets)
      ensures datasets == old(datasets)[r.record.id := r.record]
    {
      var row := d.(id := nextId);
      datasets := datasets[nextId := row];
      nextId := nextId + 1;
      r := Row(row);
    }

    /** GET /datasets/{id} (datacat.py:134-138): `datasets[id]` raises for a missing id. */
    method Fetch(id: int) returns (r: Response)
      requires Valid()
      ensures r.Row? <==> id in datasets
      ensures r.Row? ==> r.record == datasets[id] && r.record.id == id
      ensures !r.Row? ==> r == NotFound
    {
      if id !in datasets {
        return NotFound;
      }
      r := Row(datasets[id]);
    }

    /** `datasets(order_by='priority')`: every row once, by non-decreasing priority. */
    method ListByPriority() returns (rows: seq<Dataset>)
      requires Valid()
      ensures ListsByPriority(rows, datasets)
    {
      var ids := KeysOf(datasets);
      rows := InsertAll(datasets, ids);
      OrderedListing(rows, datasets, ids);
    }
  }

  /** The rows of `ids`, inserted one by one into a listing kept in `Precedes` order. */
  method InsertAll(table: map<int, Dataset>, ids: seq<int>) returns (rows: seq<Dataset>)
    requires forall i :: 0 <= i < |ids| ==> ids[i] in table && table[ids[i]].id == ids[i]
    requires forall i, j :: 0 <= i < j < |ids| ==> ids[i] != ids[j]
    ensures StrictlyOrdered(rows)
    ensures forall i :: 0 <= i < |rows| ==> rows[i].id in ids && table[rows[i].id] == rows[i]
    ensures forall j :: 0 <= j < |ids| ==> Listed(rows, ids[j])
  {
    rows := [];
    for k := 0 to |ids|
      invariant StrictlyOrdered(rows)
      invariant forall i :: 0 <= i < |rows| ==>
                  rows[i].id in ids[..k] && table[rows[i].id] == rows[i]
      invariant forall j :: 0 <= j < k ==> Listed(rows, ids[j])
    {
      var before := rows;
      var next := table[ids[k]];
      forall i | 0 <= i < |before| ensures before[i].id != next.id {
        var j :| 0 <= j < k && ids[j] == before[i].id;
      }
      rows := InsertByPriority(before, next);
      forall i | 0 <= i < |rows| ensures rows[i].id in ids[..k + 1] && table[rows[i].id] == rows[i] {
        assert rows[i] in rows;
        if rows[i] != next {
          var j :| 0 <= j < |before| && before[j] == rows[i];
          assert before[j].id in ids[..k];
        }
      }
      forall j | 0 <= j < k + 1 ensures Listed(rows, ids[j]) {
        if j == k {
          assert next in rows;
        } else {
          var i :| 0 <= i < |before| && before[i].id == ids[j];
          assert before[i] in rows;
        }
      }
    }
    assert ids[..|ids|] == ids;
  }

  /** A strictly ordered listing of exactly the rows of a table lists it by priority. */
  lemma OrderedListing(rows: seq<Dataset>, table: map<int, Dataset>, ids: seq<int>)
    requires forall i :: 0 <= i < |ids| ==> ids[i] in table
    requires forall id :: id in table ==> id in ids
    requires StrictlyOrdered(rows)
    requires forall i :: 0 <= i < |rows| ==> rows[i].id in ids && table[rows[i].id] == rows[i]
    requires forall j :: 0 <= j < |ids| ==> Listed(rows, ids[j])
    ensures ListsByPriority(rows, table)
  {
    forall i, j | 0 <= i < j < |rows| ensures rows[i].id != rows[j].id {
      assert Precedes(rows[i], rows[j]);
    }
  }

  /** The keys of a table, each once, in some order. */
  method KeysOf(table: map<int, Dataset>) returns (ids: seq<int>)
    ensures forall i :: 0 <= i < |ids| ==> ids[i] in table
    ensures forall id :: id in table ==> id in ids
    ensures forall i, j :: 0 <= i < j < |ids| ==> ids[i] != ids[j]
  {
    ids := [];
    var todo := table.Keys;
    while exists key :: key in todo
      invariant todo <= table.Keys
      invariant forall id :: id in table <==> id in ids || id in todo
      invariant forall i :: 0 <= i < |ids| ==> ids[i] in table && ids[i] !in todo
      invariant forall i, j :: 0 <= i < j < |ids| ==> ids[i] != ids[j]
      decreases todo
    {
      var key :| key in todo;
      ids := ids + [key];
      todo := todo - {key};
    }
  }

  /** The position of the first id in `ids` with no row in `table`, or `|ids|`. */
  function FirstMissing(ids: seq<int>, table: map<int, Dataset>): (k: nat)
    ensures k <= |ids|
    ensures forall j :: 0 <= j < k ==> ids[j] in table
    ensures k < |ids| ==> ids[k] !in table
  {
    if ids == [] then 0
    else if ids[0] !in table then 0
    else 1 + FirstMissing(ids[1..], table)
  }

  /** `FirstMissing` is the first failing position. */
  lemma FirstMissingAt(ids: seq<int>, table: map<int, Dataset>, i: nat)
    requires i <= |ids|
    requires forall j :: 0 <= j < i ==> ids[j] in table
    requires i < |ids| ==> ids[i] !in table
    ensures FirstMissing(ids, table) == i
  {
  }

  /** GET /logout behind the gate: it always ends logged out, and never raises. */
  method LogoutRoute(c: Catalogue) returns (r: Response)
    requires c.Valid()
    modifies c
    ensures c.Valid() && c.auth == None && r == Redirect(LoginPath, SeeOther)
    ensures c.users == old(c.users) && c.datasets == old(c.datasets)
  {
    assert !OnSkipList("/logout") by {
      assert "/logout"[4] != LoginPath[4];
      assert "/logout"[3..][0] != ".css"[0];
    }
    var g := c.Before("/logout");
    if g.Admit? {
      r := c.Logout();
    } else {
      r := g.response;
    }
  }

  /**
   * A first login registers the user; logging in again with the same
   * password succeeds without touching the users table, and with another
   * password fails.
   */
  method LoginAgain(c: Catalogue, name: string, pwd: string, other: string) returns (first: Response, second: Response, third: Response)
    requires c.Valid()
    requires name != "" && pwd != "" && other != "" && other != pwd
    requires name !in c.users
    modifies c
    ensures first == Redirect(HomePath, SeeOther) && second == Redirect(HomePath, SeeOther)
    ensures third == Redirect(LoginPath, SeeOther)
    ensures c.users == old(c.users)[name := pwd]
  {
    first := c.Login(name, pwd);
    var _ := c.Logout();
    second := c.Login(name, pwd);
    third := c.Login(name, other);
  }

  /** A created row can be fetched back with the submitted values and its new id. */
  method CreateThenFetch(c: Catalogue, d: Dataset) returns (r: Response)
    requires c.Valid()
    modifies c
    ensures r.Row? && r.record == d.(id := r.record.id)
  {
    var created := c.Create(d);
    r := c.Fetch(created.record.id);
  }

  /** A deleted row can no longer be fetched. */
  method DeleteThenFetch(c: Catalogue, id: int) returns (r: Response)
    requires c.Valid()
    modifies c
    ensures r == NotFound
  {
    var _ := c.Delete(id);
    r := c.Fetch(id);
  }
}
