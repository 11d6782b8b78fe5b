/** The action registry of Server.go: the twelve `Create*`/`Update*`/
    `Read*`/`Delete*` structs collapsed into one datatype tagged by record
    kind, the `Get*Action` factories, and what `Process` does to the store. */
module Actions {
  import opened Decimal
  import opened Records
  import opened StoreModel

  datatype Verb = Create | Update | Read | Delete

  /** The wire spelling of a verb in the envelope's `action` field. */
  function VerbName(v: Verb): string
  {
    match v
    case Create => "create"
    case Update => "update"
    case Read => "read"
    case Delete => "delete"
  }

  /** A `DefinedAction`: create and update carry a whole record (`T`/`S`,
      tagged `data` on the wire); read and delete carry only `data.id`. */
  datatype DefinedAction =
    | CreateAction(kind: Kind, data: Record)
    | UpdateAction(kind: Kind, data: Record)
    | ReadAction(kind: Kind, id: string)
    | DeleteAction(kind: Kind, id: string)

  function VerbOf(a: DefinedAction): Verb
  {
    match a
    case CreateAction(_, _) => Create
    case UpdateAction(_, _) => Update
    case ReadAction(_, _) => Read
    case DeleteAction(_, _) => Delete
  }

  /** A create or update carries a record of its own kind, as Go's static
      types guarantee for `CreateTeacher.T` and its siblings. */
  predicate WellKinded(a: DefinedAction)
  {
    (a.CreateAction? || a.UpdateAction?) ==> KindOf(a.data) == a.kind
  }

  /** `GetCreateAction`, `GetUpdateAction`, `GetReadAction` and
      `GetDeleteAction` of each kind: a fresh action of that kind and verb
      whose payload is still the zero value. */
  function GetAction(k: Kind, v: Verb): (a: DefinedAction)
    ensures a.kind == k && VerbOf(a) == v
    ensures (a.CreateAction? || a.UpdateAction?) ==> a.data == ZeroRecord(k)
    ensures (a.ReadAction? || a.DeleteAction?) ==> a.id == ""
  {
    match v
    case Create => CreateAction(k, ZeroRecord(k))
    case Update => UpdateAction(k, ZeroRecord(k))
    case Read => ReadAction(k, "")
    case Delete => DeleteAction(k, "")
  }

  /** What the server writes back.  `Snapshot` is a read result, whose text
      is the record's fields formatted by `fmt.Sprintf` (the person's
      `PersonalCode` is not among them); `Panic` is a Go run-time panic in
      the handler, after which no reply is written. */
  datatype Response = Text(text: string) | Snapshot(record: Record) | Panic

  function CreatedText(k: Kind): string { KindName(k) + " created successfully\n" }
  function UpdatedText(k: Kind): string { KindName(k) + " updated successfully\n" }
  function DeletedText(k: Kind): string { KindName(k) + " deleted successfully\n" }

  /** The slot presented to a read or an update for `id` of kind `k` is
      usable: `(*db)[db.GetIndex(id)].(Teacher)` (and so on) neither indexes
      -1 nor fails its type assertion. */
  predicate Usable(s: seq<Record>, k: Kind, id: string)
  {
    var i := IndexOf(s, id);
    0 <= i && KindOf(s[i]) == k
  }

  /** `Process` of every action, as a transition of the store and a reply.
      Both panics of read and update happen before anything is written, so
      the state they leave is the state they found. */
  function Apply(st: State, a: DefinedAction): (State, Response)
  {
    match a
    case CreateAction(k, r) => (StoreModel.Created(st, r), Text(CreatedText(k)))
    case UpdateAction(k, r) =>
      if Usable(st.db, k, r.id) then (Replaced(st, r), Text(UpdatedText(k))) else (st, Panic)
    case ReadAction(k, id) =>
      if Usable(st.db, k, id) then (st, Snapshot(st.db[IndexOf(st.db, id)])) else (st, Panic)
    case DeleteAction(k, id) => (st.(db := Removed(st.db, id)), Text(DeletedText(k)))
  }

  /** Every action keeps the store invariant; the counter moves only on
      create, and there by exactly one. */
  lemma ApplyValid(st: State, a: DefinedAction)
    requires Valid(st)
    ensures Valid(Apply(st, a).0)
    ensures Apply(st, a).0.firstFreeId == st.firstFreeId + (if a.CreateAction? then 1 else 0)
  {
    match a
    case CreateAction(k, r) => CreatedValid(st, r);
    case UpdateAction(k, r) => if Usable(st.db, k, r.id) { ReplacedValid(st, r); }
    case ReadAction(k, id) =>
    case DeleteAction(k, id) => RemovedValid(st, id);
  }

  /** A well-kinded action never changes the kind of a stored record: an
      update that goes through writes a record of the kind already in the slot. */
  lemma ApplyKeepsKinds(st: State, a: DefinedAction)
    requires WellKinded(a) && !a.CreateAction? && !a.DeleteAction?
    ensures |Apply(st, a).0.db| == |st.db|
    ensures forall j :: 0 <= j < |st.db| ==> KindOf(Apply(st, a).0.db[j]) == KindOf(st.db[j])
  {
  }

  /** Only create, update and delete change the store, and a panic never
      does. */
  lemma ReadAndPanicKeepState(st: State, a: DefinedAction)
    ensures a.ReadAction? || Apply(st, a).1 == Panic ==> Apply(st, a).0 == st
    ensures Apply(st, a).1 == Panic <==>
              (a.ReadAction? && !Usable(st.db, a.kind, a.id)) ||
              (a.UpdateAction? && !Usable(st.db, a.kind, a.data.id))
  {
  }

  /** A create appends the record, stamped with the old counter (any identity
      in the payload is ignored), at the end, and a read of that identity
      then returns it. */
  lemma {:induction false} CreateThenRead(st: State, k: Kind, r: Record)
    requires Valid(st) && KindOf(r) == k
    ensures var (st1, reply) := Apply(st, CreateAction(k, r));
      var id := NatToString(st.firstFreeId);
      && reply == Text(KindName(k) + " created successfully\n")
      && st1.db == st.db + [WithId(r, id)]
      && st1.firstFreeId == st.firstFreeId + 1
      && Apply(st1, ReadAction(k, id)) == (st1, Snapshot(WithId(r, id)))
  {
    var st1 := StoreModel.Created(st, r);
    var id := NatToString(st.firstFreeId);
    CreatedValid(st, r);
    assert st1.db[|st.db|].id == id;
    forall j | 0 <= j < |st.db|
      ensures st1.db[j].id != id
    {
      assert st1.db[j] == st.db[j];
    }
    IndexOfFirst(st1.db, id, |st.db|);
  }

  /** An update that goes through replaces the record in its slot, and a read
      of the same identity then returns exactly the new record. */
  lemma {:induction false} UpdateThenRead(st: State, k: Kind, r: Record)
    requires Valid(st) && Usable(st.db, k, r.id) && KindOf(r) == k
    ensures var (st1, reply) := Apply(st, UpdateAction(k, r));
      && reply == Text(KindName(k) + " updated successfully\n")
      && |st1.db| == |st.db| && st1.firstFreeId == st.firstFreeId
      && st1.db[IndexOf(st.db, r.id)] == r
      && (forall j :: 0 <= j < |st.db| && j != IndexOf(st.db, r.id) ==> st1.db[j] == st.db[j])
      && Apply(st1, ReadAction(k, r.id)) == (st1, Snapshot(r))
  {
  }

  /** After a delete action for `id`, a read of `id`
      panics, the identity is absent from the `GET` listing, and every other
      record is still there in its old relative order. */
  lemma {:induction false} DeleteThenRead(st: State, k: Kind, id: string, k': Kind)
    requires Valid(st)
    ensures var (st1, reply) := Apply(st, DeleteAction(k, id));
      && reply == Text(KindName(k) + " deleted successfully\n")
      && st1.firstFreeId == st.firstFreeId
      && st1.db == WithoutId(st.db, id)
      && Apply(st1, ReadAction(k', id)) == (st1, Panic)
      && id !in Tokens(IdList(st1.db))
  {
    var st1 := st.(db := Removed(st.db, id));
    RemovedValid(st, id);
    RemovedIsFilter(st.db, id);
    ListingReadsBack(st1);
  }

  /** Deleting an identity that is not stored changes nothing and still
      reports success. */
  lemma DeleteAbsent(st: State, k: Kind, id: string)
    requires IndexOf(st.db, id) == -1
    ensures Apply(st, DeleteAction(k, id)) == (st, Text(KindName(k) + " deleted successfully\n"))
  {
  }

  /** A whole session on a fresh server: the first teacher created gets
      identity "1", reading "1" echoes it, deleting "1" removes it, a second
      read of "1" panics and the `GET` listing is empty again. */
  lemma TeacherSession(r: Record)
    requires KindOf(r) == TeacherKind
    ensures var (s1, m1) := Apply(Init(), CreateAction(TeacherKind, r));
      var (s2, m2) := Apply(s1, ReadAction(TeacherKind, "1"));
      var (s3, m3) := Apply(s2, DeleteAction(TeacherKind, "1"));
      && m1 == Text(KindName(TeacherKind) + " created successfully\n")
      && m2 == Snapshot(WithId(r, "1"))
      && m3 == Text(KindName(TeacherKind) + " deleted successfully\n")
      && Apply(s3, ReadAction(TeacherKind, "1")) == (s3, Panic)
      && IdList(s3.db) == ""
  {
  }

  // ---------------------------------------------------------------- traces

  /** The actions of a trace, run one after the other. */
  function Run(st: State, acts: seq<DefinedAction>): State
    decreases |acts|
  {
    if acts == [] then st else Run(Apply(st, acts[0]).0, acts[1..])
  }

  /** How many creates a trace holds. */
  function Creates(acts: seq<DefinedAction>): nat
    decreases |acts|
  {
    if acts == [] then 0 else (if acts[0].CreateAction? then 1 else 0) + Creates(acts[1..])
  }

  /** The identities the creates of a trace mint, in the order they run. */
  function Minted(st: State, acts: seq<DefinedAction>): seq<string>
    decreases |acts|
  {
    if acts == [] then []
    else
      (if acts[0].CreateAction? then [NatToString(st.firstFreeId)] else [])
      + Minted(Apply(st, acts[0]).0, acts[1..])
  }

  /** Under any mix of create, update, read and delete the invariant holds
      throughout and the counter has risen by the number of creates. */
  lemma {:induction false} RunValid(st: State, acts: seq<DefinedAction>)
    requires Valid(st)
    ensures Valid(Run(st, acts))
    ensures Run(st, acts).firstFreeId == st.firstFreeId + Creates(acts)
    decreases |acts|
  {
    if acts != [] {
      ApplyValid(st, acts[0]);
      RunValid(Apply(st, acts[0]).0, acts[1..]);
    }
  }

  /** The k-th create of a trace (counting from 0) mints the counter value
      at the start of the trace plus k. */
  lemma {:induction false} MintedStamps(st: State, acts: seq<DefinedAction>)
    ensures |Minted(st, acts)| == Creates(acts)
    ensures forall i :: 0 <= i < |Minted(st, acts)| ==>
              Minted(st, acts)[i] == NatToString(st.firstFreeId + i)
    decreases |acts|
  {
    if acts != [] {
      var st1 := Apply(st, acts[0]).0;
      assert st1.firstFreeId == st.firstFreeId + (if acts[0].CreateAction? then 1 else 0);
      MintedStamps(st1, acts[1..]);
      var rest := Minted(st1, acts[1..]);
      var m := Minted(st, acts);
      forall i | 0 <= i < |m|
        ensures m[i] == NatToString(st.firstFreeId + i)
      {
        if acts[0].CreateAction? {
          if i > 0 {
            assert m[i] == rest[i - 1];
          }
        } else {
          assert m[i] == rest[i];
        }
      }
    }
  }

  /** No identity is ever reused: the identities a trace mints are pairwise
      distinct, and none of them was issued before the trace began.  In a
      valid store every stored identity was issued, so none equals an
      identity stored when the trace began or deleted before it. */
  lemma NoReuse(st: State, acts: seq<DefinedAction>)
    ensures forall i, j :: 0 <= i < j < |Minted(st, acts)| ==> Minted(st, acts)[i] != Minted(st, acts)[j]
    ensures forall i, id :: 0 <= i < |Minted(st, acts)| && Issued(id, st.firstFreeId) ==>
              Minted(st, acts)[i] != id
  {
    MintedStamps(st, acts);
    var m := Minted(st, acts);
    var c := st.firstFreeId;
    forall i, j | 0 <= i < j < |m|
      ensures m[i] != m[j]
    {
      FormatInjective(c + i, c + j);
    }
    forall i, id | 0 <= i < |m| && Issued(id, c)
      ensures m[i] != id
    {
      var n: nat :| 1 <= n < c && id == NatToString(n);
      FormatInjective(n, c + i);
    }
  }

  /** On a fresh server, whatever else happens in between, the k-th create
      (counting from 0) mints identity "k+1". */
  lemma FreshServerMints(acts: seq<DefinedAction>)
    ensures forall i :: 0 <= i < |Minted(Init(), acts)| ==> Minted(Init(), acts)[i] == NatToString(i + 1)
    ensures Run(Init(), acts).firstFreeId == Creates(acts) + 1
  {
    MintedStamps(Init(), acts);
    InitValid();
    RunValid(Init(), acts);
  }
}
