/**
 * The record store (`DataService`): an in-memory, ordered table of student
 * records, loaded once from the backing file and rewritten wholesale after
 * every change.
 *
 * The file is abstracted: `DataFile` is what reading it yields, and the
 * ghost field `persisted` is the table a fresh load of the file would give.
 * The outcome of each write and each `Guid.NewGuid()` are parameters.
 */
module Data {
  import opened Wrappers
  import opened Errors
  import opened Text
  import opened Models

  /** What reading the backing file yields. */
  datatype DataFile =
    | Absent                                     // File.Exists is false
    | Blank                                      // empty or white space only
    | Json(decoded: Option<seq<StudentData>>)    // a well-formed document (`null` decodes to None)
    | Unreadable(cause: AccessCause)             // malformed JSON, I/O, permission or other failure

  /** `LoadData`: the table held in a file, or the data-access error reading it raises. */
  function LoadData(file: DataFile): (r: Result<seq<StudentData>, Error>)
    ensures r.Err? <==> file.Unreadable?
    ensures file.Unreadable? ==> r == Err(DataAccess(file.cause))
    ensures file.Absent? || file.Blank? || file == Json(None) ==> r == Ok([])
    ensures r.Ok? && r.value != [] ==> file == Json(Some(r.value))
  {
    match file
    case Absent => Ok([])
    case Blank => Ok([])
    case Json(decoded) => (match decoded case None => Ok([]) case Some(t) => Ok(t))
    case Unreadable(cause) => Err(DataAccess(cause))
  }

  /** The file `SaveData` writes for a table. */
  function StoredFile(table: seq<StudentData>): DataFile {
    Json(Some(table))
  }

  /**
   * The serialiser's promise, as this model abstracts it: what `SaveData`
   * writes, `LoadData` reads back, same records, same order. It holds by the
   * choice of `StoredFile`; nothing is proved here about JSON itself.
   */
  lemma SaveLoadRoundTrip(table: seq<StudentData>)
    ensures LoadData(StoredFile(table)) == Ok(table)
  {
  }

  /** No two entries share an `Id`. */
  predicate UniqueIds(t: seq<StudentData>) {
    forall i, j :: 0 <= i < j < |t| ==> t[i].id != t[j].id
  }

  /** `FirstOrDefault(s => s.Id == id)`, as the position of that entry. */
  function IndexOfId(t: seq<StudentData>, id: Guid): (r: Option<nat>)
    ensures r.Some? ==> r.value < |t| && t[r.value].id == id
    ensures r.Some? ==> forall j :: 0 <= j < r.value ==> t[j].id != id
    ensures r.None? <==> forall j :: 0 <= j < |t| ==> t[j].id != id
  {
    if t == [] then None
    else if t[0].id == id then Some(0)
    else match IndexOfId(t[1..], id)
      case None => None
      case Some(k) => Some(k + 1)
  }

  /** The entries owned by `username` (ignoring case), in table order. */
  function Owned(t: seq<StudentData>, username: string): (r: seq<StudentData>)
    ensures |r| <= |t|
    ensures forall x :: x in r <==> x in t && EqIgnoreCase(x.ownerUsername, username)
  {
    if t == [] then []
    else (if EqIgnoreCase(t[0].ownerUsername, username) then [t[0]] else []) + Owned(t[1..], username)
  }

  /** Filtering works piece by piece, so it keeps the table's order. */
  lemma {:induction false} OwnedAppend(a: seq<StudentData>, b: seq<StudentData>, username: string)
    ensures Owned(a + b, username) == Owned(a, username) + Owned(b, username)
  {
    if a == [] {
      assert a + b == b;
    } else {
      assert (a + b)[1..] == a[1..] + b;
      OwnedAppend(a[1..], b, username);
    }
  }

  /** The table with the entry at `i` taken out, the rest in order. */
  function RemoveAt(t: seq<StudentData>, i: nat): (r: seq<StudentData>)
    requires i < |t|
    ensures |r| == |t| - 1
    ensures multiset(r) + multiset{t[i]} == multiset(t)
  {
    assert t == t[..i] + [t[i]] + t[i + 1..];
    t[..i] + t[i + 1..]
  }

  lemma OwnedSingle(x: StudentData, username: string)
    ensures Owned([x], username) == if EqIgnoreCase(x.ownerUsername, username) then [x] else []
  {
    assert [x][1..] == [];
  }

  /** An appended record is seen by its owner, after every record the owner already had. */
  lemma AppendSeenByOwner(t: seq<StudentData>, x: StudentData, username: string)
    ensures EqIgnoreCase(x.ownerUsername, username) ==> Owned(t + [x], username) == Owned(t, username) + [x]
    ensures !EqIgnoreCase(x.ownerUsername, username) ==> Owned(t + [x], username) == Owned(t, username)
  {
    OwnedAppend(t, [x], username);
    OwnedSingle(x, username);
  }

  /** Removing one user's entry changes no other user's view. */
  lemma RemoveUnseenByOthers(t: seq<StudentData>, i: nat, username: string)
    requires i < |t| && !EqIgnoreCase(t[i].ownerUsername, username)
    ensures Owned(RemoveAt(t, i), username) == Owned(t, username)
  {
    var pre, post := t[..i], t[i + 1..];
    assert t == pre + ([t[i]] + post);
    OwnedAppend(pre, [t[i]] + post, username);
    OwnedAppend([t[i]], post, username);
    OwnedSingle(t[i], username);
    OwnedAppend(pre, post, username);
  }

  /** Replacing an entry by another that the user does not own either changes nothing for that user. */
  lemma ReplaceUnseenByOthers(t: seq<StudentData>, i: nat, x: StudentData, username: string)
    requires i < |t| && !EqIgnoreCase(t[i].ownerUsername, username) && !EqIgnoreCase(x.ownerUsername, username)
    ensures Owned(t[i := x], username) == Owned(t, username)
  {
    var pre, post := t[..i], t[i + 1..];
    assert t == pre + ([t[i]] + post);
    assert t[i := x] == pre + ([x] + post);
    OwnedAppend(pre, [t[i]] + post, username);
    OwnedAppend(pre, [x] + post, username);
    OwnedAppend([t[i]], post, username);
    OwnedAppend([x], post, username);
    OwnedSingle(t[i], username);
    OwnedSingle(x, username);
  }

  /** Once its entry is removed, an `Id` is gone from a table of unique ids: deleting again is a no-op. */
  lemma RemovedIdGone(t: seq<StudentData>, id: Guid)
    requires UniqueIds(t) && IndexOfId(t, id).Some?
    ensures UniqueIds(RemoveAt(t, IndexOfId(t, id).value))
    ensures IndexOfId(RemoveAt(t, IndexOfId(t, id).value), id).None?
  {
    var i := IndexOfId(t, id).value;
    var r := RemoveAt(t, i);
    forall a, b | 0 <= a < b < |r| ensures r[a].id != r[b].id {
      var a', b' := if a < i then a else a + 1, if b < i then b else b + 1;
      RemoveAtShifts(t, i, a);
      RemoveAtShifts(t, i, b);
      assert a' < b';
    }
    forall j | 0 <= j < |r| ensures r[j].id != id {
      RemoveAtShifts(t, i, j);
    }
  }

  /** Entries after the removed one move down by one place. */
  lemma RemoveAtShifts(t: seq<StudentData>, i: nat, j: nat)
    requires i < |t| && j < |t| - 1
    ensures RemoveAt(t, i)[j] == t[if j < i then j else j + 1]
  {
  }

  class DataService {
    /** `_allStudentData` */
    var table: seq<StudentData>
    /** The table a fresh load of the backing file would give. */
    ghost var persisted: seq<StudentData>

    /** The table agrees with the backing file. */
    ghost predicate Synced()
      reads this
    {
      persisted == table
    }

    /** A service holding a table just loaded from its file. */
    constructor Loaded(data: seq<StudentData>)
      ensures table == data && Synced()
    {
      table := data;
      persisted := data;
    }

    /**
     * The public constructor `DataService(baseDirectory)`: a blank directory is
     * rejected; otherwise the table is loaded, and a load failure escapes.
     */
    static method Open(baseDirectory: string, file: DataFile) returns (r: Result<DataService, Error>)
      ensures IsBlank(baseDirectory) ==> r == Err(Argument("baseDirectory"))
      ensures !IsBlank(baseDirectory) && LoadData(file).Err? ==> r == Err(LoadData(file).error)
      ensures !IsBlank(baseDirectory) && LoadData(file).Ok? ==>
                r.Ok? && fresh(r.value) && r.value.table == LoadData(file).value && r.value.Synced()
    {
      if IsBlank(baseDirectory) {
        return Err(Argument("baseDirectory"));
      }
      var loaded := LoadData(file);
      if loaded.Err? {
        return Err(loaded.error);
      }
      var service := new DataService.Loaded(loaded.value);
      return Ok(service);
    }

    /**
     * `SaveData`: rewrite the whole file from the table. `fault` is the
     * failure the write meets, if any; a failed write leaves the file as it was.
     */
    method SaveData(fault: Option<AccessCause>) returns (r: Outcome<Error>)
      modifies this`persisted
      ensures fault.None? ==> r == Pass && Synced()
      ensures fault.Some? ==> r == Fail(DataAccess(fault.value)) && persisted == old(persisted)
    {
      match fault
      case None =>
        persisted := table;
        return Pass;
      case Some(cause) =>
        return Fail(DataAccess(cause));
    }

    /** `GetDataForUser`: the records `username` owns, in table order. */
    function GetDataForUser(username: string): (r: seq<StudentData>)
      reads this
      ensures IsBlank(username) ==> r == []
      ensures !IsBlank(username) ==> forall x :: x in r <==> x in table && EqIgnoreCase(x.ownerUsername, username)
      ensures |r| <= |table|
    {
      if IsBlank(username) then [] else Owned(table, username)
    }

    /**
     * `AddStudentData`: reject a null record or a blank owner; otherwise give
     * the record the fresh id `newId`, append it and save.
     */
    method AddStudentData(newItem: Option<StudentData>, newId: Guid, saveFault: Option<AccessCause>)
      returns (r: Outcome<Error>)
      requires forall x :: x in table ==> x.id != newId
      modifies this
      ensures newItem.None? ==> r == Fail(ArgumentNull("newItem"))
      ensures newItem.Some? && IsBlank(newItem.value.ownerUsername) ==> r == Fail(Argument("newItem"))
      ensures newItem.None? || IsBlank(newItem.value.ownerUsername) ==>
                table == old(table) && persisted == old(persisted)
      ensures newItem.Some? && !IsBlank(newItem.value.ownerUsername) ==>
                && table == old(table) + [newItem.value.(id := newId)]
                && GetDataForUser(newItem.value.ownerUsername) ==
                   old(GetDataForUser(newItem.value.ownerUsername)) + [newItem.value.(id := newId)]
                && (saveFault.None? ==> r == Pass && Synced())
                && (saveFault.Some? ==> r == Fail(DataAccess(saveFault.value)) && persisted == old(persisted))
      ensures UniqueIds(old(table)) ==> UniqueIds(table)
    {
      if newItem.None? {
        return Fail(ArgumentNull("newItem"));
      }
      if IsBlank(newItem.value.ownerUsername) {
        return Fail(Argument("newItem"));
      }
      var item := newItem.value.(id := newId);
      AppendSeenByOwner(table, item, item.ownerUsername);
      table := table + [item];
      r := SaveData(saveFault);
    }

    /**
     * `UpdateStudentData`: reject null; fail with not-found on an unknown id;
     * otherwise put the record in place of the first entry with its id and save.
     * Whether the owner changes is not checked; a user who owns neither the
     * old nor the new record sees no change.
     */
    method UpdateStudentData(updatedItem: Option<StudentData>, saveFault: Option<AccessCause>)
      returns (r: Outcome<Error>)
      modifies this
      ensures updatedItem.None? ==> r == Fail(ArgumentNull("updatedItem"))
      ensures updatedItem.Some? && IndexOfId(old(table), updatedItem.value.id).None? ==>
                r == Fail(NotFound(updatedItem.value.id))
      ensures updatedItem.None? || IndexOfId(old(table), updatedItem.value.id).None? ==>
                table == old(table) && persisted == old(persisted)
      ensures updatedItem.Some? && IndexOfId(old(table), updatedItem.value.id).Some? ==>
                && table == old(table)[IndexOfId(old(table), updatedItem.value.id).value := updatedItem.value]
                && (forall u ::
                      && !EqIgnoreCase(old(table)[IndexOfId(old(table), updatedItem.value.id).value].ownerUsername, u)
                      && !EqIgnoreCase(updatedItem.value.ownerUsername, u)
                      ==> GetDataForUser(u) == old(GetDataForUser(u)))
                && (saveFault.None? ==> r == Pass && Synced())
                && (saveFault.Some? ==> r == Fail(DataAccess(saveFault.value)) && persisted == old(persisted))
      ensures UniqueIds(old(table)) ==> UniqueIds(table)
    {
      if updatedItem.None? {
        return Fail(ArgumentNull("updatedItem"));
      }
      var item := updatedItem.value;
      var found := IndexOfId(table, item.id);
      if found.None? {
        return Fail(NotFound(item.id));
      }
      ghost var before := table;
      forall u | !EqIgnoreCase(before[found.value].ownerUsername, u) && !EqIgnoreCase(item.ownerUsername, u)
        ensures Owned(before[found.value := item], u) == Owned(before, u)
      {
        ReplaceUnseenByOthers(before, found.value, item, u);
      }
      table := table[found.value := item];
      r := SaveData(saveFault);
    }

    /**
     * `DeleteDataObject`: reject a blank acting user; an unknown id is a
     * silent no-op; a user who does not own the entry is refused; otherwise
     * the entry is removed and the table saved.
     */
    method DeleteDataObject(id: Guid, currentUsername: string, saveFault: Option<AccessCause>)
      returns (r: Outcome<Error>)
      modifies this
      ensures IsBlank(currentUsername) ==> r == Fail(Argument("currentUsername"))
      ensures !IsBlank(currentUsername) && IndexOfId(old(table), id).None? ==> r == Pass
      ensures !IsBlank(currentUsername) && IndexOfId(old(table), id).Some? &&
              !EqIgnoreCase(old(table)[IndexOfId(old(table), id).value].ownerUsername, currentUsername) ==>
                r == Fail(InvalidOperation)
      ensures IsBlank(currentUsername) || IndexOfId(old(table), id).None? ||
              !EqIgnoreCase(old(table)[IndexOfId(old(table), id).value].ownerUsername, currentUsername) ==>
                table == old(table) && persisted == old(persisted)
      ensures !IsBlank(currentUsername) && IndexOfId(old(table), id).Some? &&
              EqIgnoreCase(old(table)[IndexOfId(old(table), id).value].ownerUsername, currentUsername) ==>
                && table == RemoveAt(old(table), IndexOfId(old(table), id).value)
                && (forall u :: !EqIgnoreCase(u, currentUsername) ==> GetDataForUser(u) == old(GetDataForUser(u)))
                && (saveFault.None? ==> r == Pass && Synced())
                && (saveFault.Some? ==> r == Fail(DataAccess(saveFault.value)) && persisted == old(persisted))
      ensures UniqueIds(old(table)) ==> UniqueIds(table)
    {
      if IsBlank(currentUsername) {
        return Fail(Argument("currentUsername"));
      }
      var found := IndexOfId(table, id);
      if found.None? {
        return Pass;
      }
      if !EqIgnoreCase(table[found.value].ownerUsername, currentUsername) {
        return Fail(InvalidOperation);
      }
      ghost var before := table;
      forall u | !EqIgnoreCase(u, currentUsername)
        ensures Owned(RemoveAt(before, found.value), u) == Owned(before, u)
      {
        RemoveUnseenByOthers(before, found.value, u);
      }
      table := RemoveAt(table, found.value);
      if UniqueIds(before) {
        RemovedIdGone(before, id);
      }
      r := SaveData(saveFault);
    }
  }
}
