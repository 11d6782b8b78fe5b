/** The store of Server.go as a value: the ordered slice `db` of records
    and the global counter `FirstFreeId`.  Each operation of the server is a
    transition on this value; the class in module Server is proved to
    perform exactly these transitions. */
module StoreModel {
  import opened Decimal
  import opened Records

  datatype State = State(db: seq<Record>, firstFreeId: nat)

  /** The store at start-up: `var db DB` is empty and `FirstFreeId` is 1. */
  function Init(): State
  {
    State([], 1)
  }

  /** `DB.GetIndex`: the first position holding `id`, or -1 if none does. */
  function IndexOf(s: seq<Record>, id: string): (i: int)
    ensures -1 <= i < |s|
    ensures 0 <= i ==> s[i].id == id && forall j :: 0 <= j < i ==> s[j].id != id
    ensures i == -1 <==> forall j :: 0 <= j < |s| ==> s[j].id != id
    decreases |s|
  {
    if s == [] then -1
    else if s[0].id == id then 0
    else
      var j := IndexOf(s[1..], id);
      if j == -1 then -1 else j + 1
  }

  /** A position holding `id` with no earlier one is what `IndexOf` finds. */
  lemma IndexOfFirst(s: seq<Record>, id: string, i: int)
    requires 0 <= i < |s| && s[i].id == id
    requires forall j :: 0 <= j < i ==> s[j].id != id
    ensures IndexOf(s, id) == i
  {
  }

  /** The identities of the records, in store order. */
  function Ids(s: seq<Record>): (ids: seq<string>)
    ensures |ids| == |s| && forall i :: 0 <= i < |s| ==> ids[i] == s[i].id
  {
    seq(|s|, i requires 0 <= i < |s| => s[i].id)
  }

  predicate UniqueIds(s: seq<Record>)
  {
    forall i, j :: 0 <= i < j < |s| ==> s[i].id != s[j].id
  }

  /** `id` is one the counter has already handed out. */
  ghost predicate Issued(id: string, next: nat)
  {
    exists n: nat :: 1 <= n < next && id == NatToString(n)
  }

  /** The store invariant: the counter is positive, every identity in the
      store was minted by the counter below its current value, and no two
      records share an identity. */
  ghost predicate Valid(st: State)
  {
    && 1 <= st.firstFreeId
    && UniqueIds(st.db)
    && forall i :: 0 <= i < |st.db| ==> Issued(st.db[i].id, st.firstFreeId)
  }

  lemma InitValid()
    ensures Valid(Init()) && Init().db == []
  {
  }

  // ---------------------------------------------------------------- create

  /** Create: stamp the record with the decimal counter, bump the counter,
      append the record at the end. */
  function Created(st: State, r: Record): State
  {
    State(st.db + [WithId(r, NatToString(st.firstFreeId))], st.firstFreeId + 1)
  }

  /** The identity a create mints is new to the store, and creating keeps the
      invariant. */
  lemma CreatedValid(st: State, r: Record)
    requires Valid(st)
    ensures IndexOf(st.db, NatToString(st.firstFreeId)) == -1
    ensures Valid(Created(st, r))
  {
    var minted := NatToString(st.firstFreeId);
    forall i | 0 <= i < |st.db|
      ensures st.db[i].id != minted
    {
      assert Issued(st.db[i].id, st.firstFreeId);
      var n: nat :| 1 <= n < st.firstFreeId && st.db[i].id == NatToString(n);
      FormatInjective(n, st.firstFreeId);
    }
    var st' := Created(st, r);
    forall i | 0 <= i < |st'.db|
      ensures Issued(st'.db[i].id, st'.firstFreeId)
    {
      if i < |st.db| {
        assert Issued(st.db[i].id, st.firstFreeId);
        var n: nat :| 1 <= n < st.firstFreeId && st.db[i].id == NatToString(n);
        assert st'.db[i].id == NatToString(n);
      } else {
        assert st'.db[i].id == NatToString(st.firstFreeId);
      }
    }
  }

  /** Several creates in a row, each on the state the previous one left. */
  function CreatedAll(st: State, rs: seq<Record>): State
    decreases |rs|
  {
    if rs == [] then st else CreatedAll(Created(st, rs[0]), rs[1..])
  }

  /** Successive creates append their records in order, stamped with
      consecutive counter values, and leave the earlier records alone. */
  lemma {:induction false} CreatedAllStamps(st: State, rs: seq<Record>)
    ensures CreatedAll(st, rs).firstFreeId == st.firstFreeId + |rs|
    ensures |CreatedAll(st, rs).db| == |st.db| + |rs|
    ensures CreatedAll(st, rs).db[..|st.db|] == st.db
    ensures forall i :: 0 <= i < |rs| ==>
              CreatedAll(st, rs).db[|st.db| + i] == WithId(rs[i], NatToString(st.firstFreeId + i))
    decreases |rs|
  {
    if rs != [] {
      var st1 := Created(st, rs[0]);
      CreatedAllStamps(st1, rs[1..]);
      var fin := CreatedAll(st, rs);
      assert fin == CreatedAll(st1, rs[1..]);
      assert fin.db[..|st.db|] == fin.db[..|st1.db|][..|st.db|];
      forall i | 0 <= i < |rs|
        ensures fin.db[|st.db| + i] == WithId(rs[i], NatToString(st.firstFreeId + i))
      {
        if i == 0 {
          assert fin.db[|st.db|] == fin.db[..|st1.db|][|st.db|];
        } else {
          assert fin.db[|st.db| + i] == fin.db[|st1.db| + (i - 1)];
          assert rs[i] == rs[1..][i - 1];
        }
      }
    }
  }

  /** From a fresh store, the n-th create (counting from 0) gets identity
      "n+1": the identities are "1", "2", "3", ... with no gap and no reuse. */
  lemma SuccessiveCreates(rs: seq<Record>)
    ensures CreatedAll(Init(), rs).firstFreeId == |rs| + 1
    ensures |CreatedAll(Init(), rs).db| == |rs|
    ensures forall i :: 0 <= i < |rs| ==> CreatedAll(Init(), rs).db[i].id == NatToString(i + 1)
  {
    CreatedAllStamps(Init(), rs);
    forall i | 0 <= i < |rs|
      ensures CreatedAll(Init(), rs).db[i].id == NatToString(i + 1)
    {
      assert CreatedAll(Init(), rs).db[|Init().db| + i] == WithId(rs[i], NatToString(Init().firstFreeId + i));
    }
  }

  // ---------------------------------------------------------------- update

  /** Update: the slot `GetIndex(r.id)` is overwritten with `r`. */
  function Replaced(st: State, r: Record): State
    requires 0 <= IndexOf(st.db, r.id)
  {
    st.(db := st.db[IndexOf(st.db, r.id) := r])
  }

  /** Updating keeps the invariant, and the identity is found in the same
      slot afterwards. */
  lemma ReplacedValid(st: State, r: Record)
    requires Valid(st)
    requires 0 <= IndexOf(st.db, r.id)
    ensures Valid(Replaced(st, r))
    ensures IndexOf(Replaced(st, r).db, r.id) == IndexOf(st.db, r.id)
  {
    var k := IndexOf(st.db, r.id);
    var st' := Replaced(st, r);
    assert forall i :: 0 <= i < |st.db| ==> st'.db[i].id == st.db[i].id;
  }

  // ---------------------------------------------------------------- delete

  /** Delete: the first record holding `id` is spliced out; with no such
      record the store is unchanged. */
  function Removed(s: seq<Record>, id: string): seq<Record>
  {
    var k := IndexOf(s, id);
    if k == -1 then s else s[..k] + s[k + 1..]
  }

  /** Reference definition of removal by identity: keep, in order, exactly
      the records whose identity differs from `id`. */
  function WithoutId(s: seq<Record>, id: string): (t: seq<Record>)
    ensures |t| <= |s|
    ensures forall r :: r in t <==> r in s && r.id != id
    decreases |s|
  {
    if s == [] then []
    else (if s[0].id == id then [] else [s[0]]) + WithoutId(s[1..], id)
  }

  lemma {:induction false} WithoutAbsent(s: seq<Record>, id: string)
    requires IndexOf(s, id) == -1
    ensures WithoutId(s, id) == s
    decreases |s|
  {
    if s != [] {
      WithoutAbsent(s[1..], id);
      assert s == [s[0]] + s[1..];
    }
  }

  /** While identities are unique, splicing out the first match removes
      every record with that identity and keeps all others in order. */
  lemma {:induction false} RemovedIsFilter(s: seq<Record>, id: string)
    requires UniqueIds(s)
    ensures Removed(s, id) == WithoutId(s, id)
    decreases |s|
  {
    if s == [] {
    } else if s[0].id == id {
      RemovedAtHead(s, id);
    } else {
      assert UniqueIds(s[1..]) by {
        forall i, j | 0 <= i < j < |s[1..]| ensures s[1..][i].id != s[1..][j].id {
          assert s[1..][i] == s[i + 1] && s[1..][j] == s[j + 1];
        }
      }
      RemovedIsFilter(s[1..], id);
      RemovedPastHead(s, id);
    }
  }

  lemma RemovedAtHead(s: seq<Record>, id: string)
    requires UniqueIds(s) && s != [] && s[0].id == id
    ensures Removed(s, id) == WithoutId(s, id)
  {
    assert IndexOf(s[1..], id) == -1 by {
      forall j | 0 <= j < |s[1..]| ensures s[1..][j].id != id {
        assert s[1..][j] == s[j + 1];
      }
    }
    WithoutAbsent(s[1..], id);
    assert WithoutId(s, id) == WithoutId(s[1..], id);
  }

  lemma RemovedPastHead(s: seq<Record>, id: string)
    requires s != [] && s[0].id != id
    ensures Removed(s, id) == [s[0]] + Removed(s[1..], id)
    ensures WithoutId(s, id) == [s[0]] + WithoutId(s[1..], id)
  {
    var k := IndexOf(s, id);
    if k != -1 {
      assert IndexOf(s[1..], id) == k - 1;
      assert s[..k] + s[k + 1..] == [s[0]] + (s[1..][..k - 1] + s[1..][k..]);
    } else {
      assert IndexOf(s[1..], id) == -1;
      assert s == [s[0]] + s[1..];
    }
  }

  /** After the first match at `k` has been spliced out of the slice's
      backing array, the array (with its stale last slot) holds no further
      record with that identity at any position past `k`. */
  lemma SplicedTailDiffers(s: seq<Record>, k: int, i: int)
    requires UniqueIds(s) && 0 <= k < i < |s|
    ensures (s[..k] + s[k + 1..] + [s[|s| - 1]])[i].id != s[k].id
  {
  }

  /** Deleting keeps the invariant, and the identity is gone afterwards. */
  lemma RemovedValid(st: State, id: string)
    requires Valid(st)
    ensures Valid(st.(db := Removed(st.db, id)))
    ensures IndexOf(Removed(st.db, id), id) == -1
  {
  }

  // --------------------------------------------------------------- listing

  /** The body of the `GET` reply: every identity followed by a space, in
      store order. */
  function IdList(s: seq<Record>): string
    decreases |s|
  {
    if s == [] then "" else s[0].id + " " + IdList(s[1..])
  }

  function FirstSpace(t: string): (k: nat)
    requires ' ' in t
    ensures k < |t| && t[k] == ' ' && ' ' !in t[..k]
    decreases |t|
  {
    if t[0] == ' ' then 0
    else
      var k := 1 + FirstSpace(t[1..]);
      assert t[..k] == [t[0]] + t[1..][..k - 1];
      k
  }

  /** Splits a text into its space-terminated words (a reader of the `GET`
      reply); text after the last space is dropped. */
  function Tokens(t: string): seq<string>
    decreases |t|
  {
    if ' ' !in t then []
    else
      var k := FirstSpace(t);
      [t[..k]] + Tokens(t[k + 1..])
  }

  /** Reading one space-terminated word off the front of a text. */
  lemma TokensCons(w: string, rest: string)
    requires ' ' !in w
    ensures Tokens(w + " " + rest) == [w] + Tokens(rest)
  {
    var t := w + " " + rest;
    assert t[|w|] == ' ';
    assert FirstSpace(t) == |w|;
    assert t[..|w|] == w;
    assert t[|w| + 1..] == rest;
  }

  /** The listing can be read back: when no identity contains a space,
      splitting the `GET` reply gives the identities in store order. */
  lemma {:induction false} TokensOfIdList(s: seq<Record>)
    requires forall i :: 0 <= i < |s| ==> ' ' !in s[i].id
    ensures Tokens(IdList(s)) == Ids(s)
    decreases |s|
  {
    if s != [] {
      TokensCons(s[0].id, IdList(s[1..]));
      forall i | 0 <= i < |s[1..]| ensures ' ' !in s[1..][i].id {
        assert s[1..][i] == s[i + 1];
      }
      TokensOfIdList(s[1..]);
      assert Ids(s) == [s[0].id] + Ids(s[1..]);
    }
  }

  /** In a valid store the `GET` reply lists exactly the stored identities,
      in store order. */
  lemma ListingReadsBack(st: State)
    requires Valid(st)
    ensures Tokens(IdList(st.db)) == Ids(st.db)
  {
    forall i | 0 <= i < |st.db|
      ensures ' ' !in st.db[i].id
    {
      assert Issued(st.db[i].id, st.firstFreeId);
      var n: nat :| 1 <= n < st.firstFreeId && st.db[i].id == NatToString(n);
      FormatHasNoSpace(n);
    }
    TokensOfIdList(st.db);
  }
}
