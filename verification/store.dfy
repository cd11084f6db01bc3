/**
 * The conflict-aware store of store/store.go and its data errors
 * (store/error.go): a table holding the latest Resource per ID. A Bolt
 * transaction is one method call; the table is keyed by the ID's 16 bytes.
 */
module Store {
  import opened Base
  import opened Errors
  import Ids
  import Since
  import opened Resources

  const ErrNoDB: Error := Message("no bolt database for store")
  /** dataError{noID: true} */
  const ErrZeroID: Error := DataError(false, true)
  /** dataError{old: true}, as Save returns it: wrapped by the update's context. */
  const ErrStale: Error := Wrapped(DataError(true, false), "updating database with resource")

  type Table = map<seq<byte>, Resource>

  /** The bucket key of an ID: its binary form. */
  function Key(id: Ids.ID): (k: seq<byte>)
    ensures |k| == 16 && Ids.UnmarshalBinary(k) == Ok(id)
  {
    Ids.MarshalBinary(id)
  }

  /**
   * ZeroValueError: ask the error itself if it has ZeroValue(), otherwise
   * ask its root cause, otherwise false.
   */
  function ZeroValueError(e: Option<Error>): (b: bool)
    ensures e.None? ==> !b
    ensures e.Some? ==> (b <==> Cause(e.value).DataError? && Cause(e.value).noID)
  {
    if e.None? then false
    else if e.value.DataError? then e.value.noID
    else if Cause(e.value).DataError? then Cause(e.value).noID
    else false
  }

  /** What one Save does to the table, and the error it returns. */
  datatype Outcome = Outcome(table: Table, err: Option<Error>)

  /**
   * Save on a table: no database, the zero ID and a stored record whose
   * Since is strictly after the new one's are errors that leave the table
   * as it was; otherwise the Resource replaces whatever its key held.
   */
  function SaveStep(hasDB: bool, t: Table, r: Resource): (o: Outcome)
    ensures o.err.None? <==> hasDB && r.id != Ids.Zero && !(Key(r.id) in t && Since.After(t[Key(r.id)].since, r.since))
    ensures o.err.Some? ==> o.table == t
    ensures o.err.None? ==> o.table == t[Key(r.id) := r]
  {
    if !hasDB then Outcome(t, Some(ErrNoDB))
    else if r.id == Ids.Zero then Outcome(t, Some(ErrZeroID))
    else
      var key := Key(r.id);
      if key in t && Since.After(t[key].since, r.since) then Outcome(t, Some(ErrStale))
      else Outcome(t[key := r], None)
  }

  /** Get on a table: the stored Resource, or the zero Resource when the key is absent. */
  function GetStep(hasDB: bool, t: Table, id: Ids.ID): (res: (Resource, Option<Error>))
    ensures res.1.Some? ==> res.0 == ZeroResource
    ensures res.1.None? <==> hasDB && id != Ids.Zero
    ensures hasDB && id == Ids.Zero ==> ZeroValueError(res.1) && !ConflictError(res.1)
    ensures res.1.None? ==> res.0 == if Key(id) in t then t[Key(id)] else ZeroResource
  {
    if !hasDB then (ZeroResource, Some(ErrNoDB))
    else if id == Ids.Zero then (ZeroResource, Some(ErrZeroID))
    else if Key(id) in t then (t[Key(id)], None)
    else (ZeroResource, None)
  }

  /** Every record is stored under the key of its own ID. */
  ghost predicate Keyed(t: Table) {
    forall k :: k in t ==> k == Key(t[k].id)
  }

  class Store {
    /** Whether the Store has a Bolt database (Go: s.DB != nil). */
    var hasDB: bool
    /** The bucket: binary ID to the latest Resource saved under it. */
    var records: Table

    ghost predicate Valid()
      reads this
    {
      Keyed(records)
    }

    constructor(hasDB: bool)
      ensures this.hasDB == hasDB && records == map[] && Valid()
    {
      this.hasDB := hasDB;
      records := map[];
    }

    /** Save persists `r` iff it is at least as recent as what is stored for its ID. */
    method Save(r: Resource) returns (err: Option<Error>)
      requires Valid()
      modifies this
      ensures Valid() && hasDB == old(hasDB)
      ensures records == SaveStep(old(hasDB), old(records), r).table
      ensures err == SaveStep(old(hasDB), old(records), r).err
    {
      if !hasDB {
        return Some(ErrNoDB);
      }
      if r.id == Ids.Zero {
        return Some(ErrZeroID);
      }
      var key := Ids.MarshalBinary(r.id);
      if key in records {
        var latest := records[key];
        if Since.After(latest.since, r.since) {
          return Some(ErrStale);
        }
      }
      records := records[key := r];
      err := None;
    }

    /** Get returns the latest Resource saved under `id`, or the zero Resource if there is none. */
    method Get(id: Ids.ID) returns (r: Resource, err: Option<Error>)
      requires Valid()
      ensures (r, err) == GetStep(hasDB, records, id)
      ensures err.None? && Key(id) in records ==> r.id == id
    {
      if !hasDB {
        return ZeroResource, Some(ErrNoDB);
      }
      if id == Ids.Zero {
        return ZeroResource, Some(ErrZeroID);
      }
      var key := Ids.MarshalBinary(id);
      if key !in records {
        return ZeroResource, None;
      }
      r, err := records[key], None;
      if r.id != id {
        KeyInjective(r.id, id);
      }
    }
  }

  // ------------------------------------------------------------------- lemmas

  /** Saving the zero ID is a zero-value error, not a conflict, and writes nothing. */
  lemma SaveZeroID(t: Table, r: Resource)
    requires r.id == Ids.Zero
    ensures ZeroValueError(SaveStep(true, t, r).err) && !ConflictError(SaveStep(true, t, r).err)
    ensures SaveStep(true, t, r).table == t
  {
  }

  /** A stale write is a conflict, even through the wrapping, and writes nothing. */
  lemma SaveStale(t: Table, r: Resource)
    requires r.id != Ids.Zero && Key(r.id) in t && t[Key(r.id)].since > r.since
    ensures ConflictError(SaveStep(true, t, r).err) && !ZeroValueError(SaveStep(true, t, r).err)
    ensures SaveStep(true, t, r).table == t
  {
  }

  /** Save changes the entry for its own key and no other. */
  lemma SaveTouchesOnlyItsKey(hasDB: bool, t: Table, r: Resource, k: seq<byte>)
    requires k != Key(r.id)
    ensures (k in SaveStep(hasDB, t, r).table) == (k in t)
    ensures k in t ==> SaveStep(hasDB, t, r).table[k] == t[k]
  {
  }

  /** Saving the same Resource again succeeds and changes nothing; Get returns it each time. */
  lemma SaveIdempotent(t: Table, r: Resource)
    requires SaveStep(true, t, r).err.None?
    ensures SaveStep(true, SaveStep(true, t, r).table, r) == SaveStep(true, t, r)
    ensures GetStep(true, SaveStep(true, t, r).table, r.id) == (r, None)
  {
    var t1 := SaveStep(true, t, r).table;
    assert t1[Key(r.id) := r] == t1;
  }

  /** Save keeps every record under the key of its own ID. */
  lemma SaveKeepsKeyed(hasDB: bool, t: Table, r: Resource)
    requires Keyed(t)
    ensures Keyed(SaveStep(hasDB, t, r).table)
  {
  }

  /** Saves applied one after another; failed ones leave the table as it was. */
  function SaveAll(hasDB: bool, t: Table, rs: seq<Resource>): Table
  {
    if rs == [] then t else SaveStep(hasDB, SaveAll(hasDB, t, rs[..|rs| - 1]), rs[|rs| - 1]).table
  }

  /**
   * The latest version wins: after any sequence of Saves, the record stored
   * for an ID is at least as recent as every Resource with that ID that was
   * offered, and is one of them or the record that was there before.
   */
  lemma {:induction false} LatestWins(t: Table, rs: seq<Resource>, id: Ids.ID)
    requires id != Ids.Zero && (Key(id) in t || exists i :: 0 <= i < |rs| && rs[i].id == id)
    ensures Key(id) in SaveAll(true, t, rs)
    ensures forall i :: 0 <= i < |rs| && rs[i].id == id ==> SaveAll(true, t, rs)[Key(id)].since >= rs[i].since
    ensures Key(id) in t ==> SaveAll(true, t, rs)[Key(id)].since >= t[Key(id)].since
    ensures SaveAll(true, t, rs)[Key(id)] in rs || (Key(id) in t && SaveAll(true, t, rs)[Key(id)] == t[Key(id)])
  {
    if rs == [] {
      return;
    }
    var k := Key(id);
    var n := |rs|;
    var front := rs[..n - 1];
    var last := rs[n - 1];
    SaveAllSnoc(t, rs);
    if k in t || exists i :: 0 <= i < n - 1 && front[i].id == id {
      LatestWins(t, front, id);
      LatestStep(t, front, last, id);
    } else {
      FirstSave(t, front, last, id);
    }
  }

  /** The base of LatestWins: the first Resource with the ID is stored as it is. */
  lemma FirstSave(t: Table, front: seq<Resource>, last: Resource, id: Ids.ID)
    requires id != Ids.Zero && Key(id) !in t && last.id == id
    requires forall i :: 0 <= i < |front| ==> front[i].id != id
    ensures SaveAll(true, t, front + [last]) == SaveAll(true, t, front)[Key(id) := last]
    ensures var rs := front + [last];
      forall i :: 0 <= i < |rs| && rs[i].id == id ==> SaveAll(true, t, rs)[Key(id)].since >= rs[i].since
  {
    var rs := front + [last];
    assert rs[..|rs| - 1] == front;
    Untouched(t, front, id);
    KeyOfSameID(last.id, id);
  }

  lemma SaveAllSnoc(t: Table, rs: seq<Resource>)
    requires rs != []
    ensures rs == rs[..|rs| - 1] + [rs[|rs| - 1]]
    ensures SaveAll(true, t, rs[..|rs| - 1] + [rs[|rs| - 1]]) == SaveAll(true, t, rs)
  {
  }

  /** The induction step of LatestWins, from the Saves but the last to all of them. */
  lemma LatestStep(t: Table, front: seq<Resource>, last: Resource, id: Ids.ID)
    requires Key(id) in SaveAll(true, t, front)
    requires forall i :: 0 <= i < |front| && front[i].id == id ==> SaveAll(true, t, front)[Key(id)].since >= front[i].since
    requires SaveAll(true, t, front)[Key(id)] in front || (Key(id) in t && SaveAll(true, t, front)[Key(id)] == t[Key(id)])
    requires Key(id) in t ==> SaveAll(true, t, front)[Key(id)].since >= t[Key(id)].since
    requires id != Ids.Zero
    ensures Key(id) in SaveAll(true, t, front + [last])
    ensures Key(id) in t ==> SaveAll(true, t, front + [last])[Key(id)].since >= t[Key(id)].since
    ensures var rs := front + [last];
      forall i :: 0 <= i < |rs| && rs[i].id == id ==> SaveAll(true, t, rs)[Key(id)].since >= rs[i].since
    ensures var rs := front + [last];
      SaveAll(true, t, rs)[Key(id)] in rs || (Key(id) in t && SaveAll(true, t, rs)[Key(id)] == t[Key(id)])
  {
    var rs := front + [last];
    var k := Key(id);
    assert rs[..|rs| - 1] == front;
    LastSave(SaveAll(true, t, front), last, id);
    forall i | 0 <= i < |rs| && rs[i].id == id
      ensures SaveAll(true, t, rs)[k].since >= rs[i].since
    {
      if i < |front| {
        assert rs[i] == front[i];
      }
    }
    var before := SaveAll(true, t, front);
    assert before[k] in front ==> before[k] in rs;
    assert last in rs;
  }

  /**
   * Get after any sequence of Saves returns the latest version: a stored
   * Resource with the ID, at least as recent as every one offered for it.
   */
  lemma GetReturnsLatest(t: Table, rs: seq<Resource>, id: Ids.ID)
    requires Keyed(t)
    requires id != Ids.Zero && exists i :: 0 <= i < |rs| && rs[i].id == id
    ensures GetStep(true, SaveAll(true, t, rs), id).1 == None
    ensures GetStep(true, SaveAll(true, t, rs), id).0.id == id
    ensures forall i :: 0 <= i < |rs| && rs[i].id == id ==> GetStep(true, SaveAll(true, t, rs), id).0.since >= rs[i].since
  {
    LatestWins(t, rs, id);
    SaveAllKeyed(t, rs);
    var r := SaveAll(true, t, rs)[Key(id)];
    if r.id != id {
      KeyInjective(r.id, id);
    }
  }

  /** Saves keep every record under the key of its own ID. */
  lemma {:induction false} SaveAllKeyed(t: Table, rs: seq<Resource>)
    requires Keyed(t)
    ensures Keyed(SaveAll(true, t, rs))
  {
    if rs != [] {
      SaveAllKeyed(t, rs[..|rs| - 1]);
      SaveKeepsKeyed(true, SaveAll(true, t, rs[..|rs| - 1]), rs[|rs| - 1]);
    }
  }

  /** One more Save keeps the key of `id` present, never makes its record older, and stores either the old record or the new one. */
  lemma LastSave(before: Table, last: Resource, id: Ids.ID)
    requires id != Ids.Zero && Key(id) in before
    ensures Key(id) in SaveStep(true, before, last).table
    ensures SaveStep(true, before, last).table[Key(id)].since >= before[Key(id)].since
    ensures last.id == id ==> SaveStep(true, before, last).table[Key(id)].since >= last.since
    ensures SaveStep(true, before, last).table[Key(id)] in {before[Key(id)], last}
  {
    if last.id == id {
      KeyOfSameID(last.id, id);
    } else {
      KeyInjective(last.id, id);
    }
  }

  /** Saves of other IDs leave the key of `id` as it was. */
  lemma {:induction false} Untouched(t: Table, rs: seq<Resource>, id: Ids.ID)
    requires forall i :: 0 <= i < |rs| ==> rs[i].id != id
    ensures (Key(id) in SaveAll(true, t, rs)) == (Key(id) in t)
    ensures Key(id) in t ==> SaveAll(true, t, rs)[Key(id)] == t[Key(id)]
  {
    if rs != [] {
      var front := rs[..|rs| - 1];
      Untouched(t, front, id);
      KeyInjective(rs[|rs| - 1].id, id);
      SaveTouchesOnlyItsKey(true, SaveAll(true, t, front), rs[|rs| - 1], Key(id));
    }
  }

  lemma KeyOfSameID(a: Ids.ID, b: Ids.ID)
    requires a == b
    ensures Key(a) == Key(b)
  {
  }

  /** Distinct IDs have distinct keys. */
  lemma KeyInjective(a: Ids.ID, b: Ids.ID)
    requires a != b
    ensures Key(a) != Key(b)
  {
  }

  // ---------------------------------------------------------- store/error.go

  /** Conflict() reports old and ZeroValue() reports noID, whichever the other flag is. */
  lemma DataErrorFlags(stale: bool, noID: bool)
    ensures ConflictError(Some(DataError(stale, noID))) == stale
    ensures ZeroValueError(Some(DataError(stale, noID))) == noID
  {
  }

  /** The four flag combinations give four distinct messages, each starting "bad data". */
  lemma DataErrorTextsDistinct(s1: bool, n1: bool, s2: bool, n2: bool)
    ensures DataErrorText(s1, n1) == DataErrorText(s2, n2) <==> s1 == s2 && n1 == n2
    ensures DataErrorText(s1, n1)[..8] == "bad data"
  {
    assert |DataErrorText(s1, n1)| != |DataErrorText(s2, n2)| <== s1 != s2 || n1 != n2;
  }
}
