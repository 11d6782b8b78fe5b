/** The server's shared state and its operations, in the imperative form of
    Server.go: the global slice `db` and counter `FirstFreeId` become the
    fields of one `Store` object, and each `Process` method, `GetIndex`,
    `UseAction` and `Handler` becomes a method on it, proved to perform the
    transition the pure modules describe.  The channel locks are left out:
    every method runs as one atomic step. */
module Server {
  import opened Decimal
  import opened Records
  import opened StoreModel
  import opened Actions
  import opened Dispatch

  class Store {
    var db: seq<Record>
    var firstFreeId: nat

    function Abs(): State
      reads this
    {
      State(db, firstFreeId)
    }

    ghost predicate Valid()
      reads this
    {
      StoreModel.Valid(Abs())
    }

    /** Start-up: an empty slice and `FirstFreeId = 1`. */
    constructor ()
      ensures Valid() && Abs() == Init()
    {
      db := [];
      firstFreeId := 1;
      InitValid();
    }

    /** `DB.GetIndex`: scan from the front and return at the first match. */
    method GetIndex(id: string) returns (i: int)
      ensures i == IndexOf(db, id)
      ensures i == -1 <==> forall j :: 0 <= j < |db| ==> db[j].id != id
    {
      var j := 0;
      while j < |db|
        invariant 0 <= j <= |db|
        invariant forall m :: 0 <= m < j ==> db[m].id != id
      {
        if db[j].id == id {
          return j;
        }
        j := j + 1;
      }
      return -1;
    }

    /** `CreateTeacher.Process` and its two siblings: stamp the payload with
        the decimal counter, bump the counter, append. */
    method Create(k: Kind, r: Record) returns (msg: string)
      requires Valid()
      modifies this
      ensures Valid()
      ensures Abs() == StoreModel.Created(old(Abs()), r)
      ensures db == old(db) + [WithId(r, NatToString(old(firstFreeId)))]
      ensures msg == KindName(k) + " created successfully\n"
    {
      CreatedValid(Abs(), r);
      var stamped := WithId(r, NatToString(firstFreeId));
      firstFreeId := firstFreeId + 1;
      db := db + [stamped];
      msg := CreatedText(k);
    }

    /** `UpdateTeacher.Process` and its siblings: overwrite the slot holding
        the payload's identity.  The source indexes `(*db)[-1]` when the
        identity is absent and fails its type assertion when the slot holds
        another kind; both are excluded here. */
    method Update(k: Kind, r: Record) returns (msg: string)
      requires Valid() && Usable(db, k, r.id)
      modifies this
      ensures Valid()
      ensures Abs() == Replaced(old(Abs()), r)
      ensures |db| == |old(db)| && firstFreeId == old(firstFreeId)
      ensures db[IndexOf(old(db), r.id)] == r
      ensures forall j :: 0 <= j < |db| && j != IndexOf(old(db), r.id) ==> db[j] == old(db)[j]
      ensures msg == KindName(k) + " updated successfully\n"
    {
      ReplacedValid(Abs(), r);
      var i := GetIndex(r.id);
      db := db[i := r];
      msg := UpdatedText(k);
    }

    /** `ReadTeacher.Process` and its siblings, up to formatting: the record
        in the slot holding `id`.  Same partiality as `Update`. */
    method Read(k: Kind, id: string) returns (r: Record)
      requires Usable(db, k, id)
      ensures r == db[IndexOf(db, id)]
      ensures r.id == id && KindOf(r) == k
    {
      var i := GetIndex(id);
      r := db[i];
    }

    /** The scan-and-splice loop shared by the `DeleteX.Process` methods and
        the `DELETE` branch of `Handler`.  As in Go, `range` fixes the length
        once and reads through the slice's backing array, which each splice
        shifts left in place (the last slot keeps a stale copy); `view` is
        that array.  Splicing at a position past the shortened slice would
        panic; with unique identities no second match exists, so it never
        happens. */
    method RemoveMatching(id: string)
      requires Valid()
      modifies this
      ensures Valid()
      ensures db == Removed(old(db), id) && firstFreeId == old(firstFreeId)
    {
      ghost var s := db;
      ghost var k := IndexOf(s, id);
      RemovedValid(Abs(), id);
      var view := db;
      var n := |view|;
      var i := 0;
      while i < n
        invariant 0 <= i <= n && n == |s| && |view| == n
        invariant firstFreeId == old(firstFreeId)
        invariant (k == -1 || i <= k) ==> db == s && view == s
        invariant 0 <= k < i ==> db == s[..k] + s[k + 1..] && view == db + [s[n - 1]]
      {
        if 0 <= k < i {
          SplicedTailDiffers(s, k, i);
        }
        if view[i].id == id {
          assert i == k;
          db := db[..i] + db[i + 1..];
          view := db + view[|db|..];
        }
        i := i + 1;
      }
    }

    /** `DeleteTeacher.Process` and its siblings. */
    method Delete(k: Kind, id: string) returns (msg: string)
      requires Valid()
      modifies this
      ensures Valid()
      ensures db == Removed(old(db), id) && firstFreeId == old(firstFreeId)
      ensures msg == KindName(k) + " deleted successfully\n"
    {
      RemoveMatching(id);
      msg := DeletedText(k);
    }

    /** The `GET` branch of `Handler`: every identity plus a space. */
    method ListIds() returns (ids: string)
      ensures ids == IdList(db)
    {
      ids := "";
      var j := 0;
      while j < |db|
        invariant 0 <= j <= |db|
        invariant ids + IdList(db[j..]) == IdList(db)
      {
        assert db[j..][1..] == db[j + 1..];
        ids := ids + db[j].id + " ";
        j := j + 1;
      }
    }

    /** `toDo.Process(db)` for whichever action was selected; a read or an
        update of an absent identity, or of a record of another kind, panics
        before it touches the store. */
    method Process(a: DefinedAction) returns (resp: Response)
      requires Valid()
      modifies this
      ensures Valid()
      ensures (Abs(), resp) == Apply(old(Abs()), a)
    {
      match a
      case CreateAction(k, r) =>
        var msg := Create(k, r);
        resp := Text(msg);
      case UpdateAction(k, r) =>
        var i := GetIndex(r.id);
        if i == -1 || KindOf(db[i]) != k {
          resp := Panic;
        } else {
          var msg := Update(k, r);
          resp := Text(msg);
        }
      case ReadAction(k, id) =>
        var i := GetIndex(id);
        if i == -1 || KindOf(db[i]) != k {
          resp := Panic;
        } else {
          var r := Read(k, id);
          resp := Snapshot(r);
        }
      case DeleteAction(k, id) =>
        var msg := Delete(k, id);
        resp := Text(msg);
    }

    /** `DB.UseAction`: a diagnostic leaves the store untouched, otherwise
        the selected action runs. */
    method UseAction(data: seq<byte>, c: Codec) returns (resp: Response)
      requires Valid()
      modifies this
      ensures Valid()
      ensures (Abs(), resp) == Respond(old(Abs()), data, c)
      ensures Select(data, c).Failure? ==> Abs() == old(Abs()) && resp == Text(Select(data, c).error)
    {
      match Select(data, c)
      case Failure(msg) =>
        resp := Text(msg);
      case Success(a) =>
        resp := Process(a);
    }

    /** `Handler`, once the request body has been read. */
    method Handle(verb: string, body: seq<byte>, c: Codec) returns (resp: Response)
      requires Valid()
      modifies this
      ensures Valid()
      ensures (Abs(), resp) == Serve(old(Abs()), verb, body, c)
    {
      if verb == "GET" {
        var ids := ListIds();
        resp := Text(ids);
      } else if verb == "POST" {
        resp := UseAction(body, c);
      } else if verb == "DELETE" {
        RemoveMatching(BytesToString(body));
        resp := Text("Object deleted successfully\n");
      } else {
        resp := Text("Unknown cmd\n");
      }
    }
  }
}
