/** The node's own state database, core/stateDB/methods.go: storage slots, and the
    snapshots that failed calls go back to. */
module StateDB {

  type Address = nat

  /** 0 is the empty hash. */
  type Hash = nat

  type Store = map<Address, map<Hash, Hash>>

  datatype Write = Write(a: Address, k: Hash, v: Hash)

  /** What a call does to the storage: writes, and calls of its own, which may fail. */
  datatype Act = Set(w: Write) | Call(acts: seq<Act>, fails: bool)

  /** GetState and GetCommittedState, which are the same function. */
  function Value(s: Store, a: Address, k: Hash): Hash {
    if a in s && k in s[a] then s[a][k] else 0
  }

  function Put(s: Store, w: Write): (r: Store)
    ensures s.Keys <= r.Keys && w.a in r
  {
    var slots := if w.a in s then s[w.a] else map[];
    s[w.a := slots[w.k := w.v]]
  }

  lemma PutValue(s: Store, w: Write, a: Address, k: Hash)
    ensures Value(Put(s, w), a, k) == if a == w.a && k == w.k then w.v else Value(s, a, k)
  {
  }

  /** One step of RevertToSnapshot: the value that was overwritten is used as the key. */
  function UndoOne(s: Store, e: (Address, Hash)): (r: Store)
    requires e.0 in s
    ensures r.Keys == s.Keys
  {
    var (a, h) := e;
    var slots: map<Hash, Hash> := if h == 0 then s[a] - {h} else s[a][h := h];
    s[a := slots]
  }

  lemma UndoOneValue(s: Store, e: (Address, Hash), a: Address, k: Hash)
    requires e.0 in s
    ensures Value(UndoOne(s, e), a, k) == if e == (a, k) then k else Value(s, a, k)
  {
  }

  function UndoAll(s: Store, log: seq<(Address, Hash)>): (r: Store)
    requires forall i | 0 <= i < |log| :: log[i].0 in s
    ensures r.Keys == s.Keys
  {
    if log == [] then s else UndoOne(UndoAll(s, log[..|log| - 1]), log[|log| - 1])
  }

  lemma UndoAllStep(s: Store, log: seq<(Address, Hash)>, i: nat)
    requires i < |log| && forall j | 0 <= j < |log| :: log[j].0 in s
    ensures UndoAll(s, log[..i + 1]) == UndoOne(UndoAll(s, log[..i]), log[i])
  {
    assert log[..i + 1][..i] == log[..i];
  }

  /** A slot gets its own number as its value if that number was overwritten anywhere in
      the account, and keeps its value otherwise. */
  lemma {:induction false} UndoAllValue(s: Store, log: seq<(Address, Hash)>, a: Address, k: Hash)
    requires forall i | 0 <= i < |log| :: log[i].0 in s
    ensures Value(UndoAll(s, log), a, k) == if (a, k) in log then k else Value(s, a, k)
  {
    if log != [] {
      var n := |log| - 1;
      UndoAllValue(s, log[..n], a, k);
      UndoOneValue(UndoAll(s, log[..n]), log[n], a, k);
      assert log == log[..n] + [log[n]];
    }
  }

  /** The store after an act, and the entries that are then on record: what each write
      overwrote, with its account. A failed call goes back and leaves nothing on record. */
  function AfterOne(s: Store, act: Act): (r: (Store, seq<(Address, Hash)>))
    ensures s.Keys <= r.0.Keys && forall i | 0 <= i < |r.1| :: r.1[i].0 in r.0
    decreases act
  {
    match act
    case Set(w) => (Put(s, w), [(w.a, Value(s, w.a, w.k))])
    case Call(acts, fails) =>
      var (t, log) := After(s, acts);
      if fails then (UndoAll(t, log), []) else (t, log)
  }

  function After(s: Store, acts: seq<Act>): (r: (Store, seq<(Address, Hash)>))
    ensures s.Keys <= r.0.Keys && forall i | 0 <= i < |r.1| :: r.1[i].0 in r.0
    decreases acts
  {
    if acts == [] then (s, [])
    else
      var (t, log) := After(s, acts[..|acts| - 1]);
      var (u, more) := AfterOne(t, acts[|acts| - 1]);
      (u, log + more)
  }

  lemma AfterStep(s: Store, acts: seq<Act>, i: nat)
    requires i < |acts|
    ensures var (t, log) := After(s, acts[..i]); var (u, more) := AfterOne(t, acts[i]);
            After(s, acts[..i + 1]) == (u, log + more)
  {
    assert acts[..i + 1][..i] == acts[..i];
  }

  ghost predicate SameValues(s: Store, r: Store) {
    forall a: Address, k: Hash :: Value(r, a, k) == Value(s, a, k)
  }

  /** What is on record when the acts are done. */
  ghost function OnRecord(s: Store, acts: seq<Act>): seq<(Address, Hash)> {
    After(s, acts).1
  }

  /** Every overwritten value on record lies in the slot of its own number, and every slot
      that holds another value than its number is left by the acts as they found it. */
  ghost predicate Undoable(s: Store, acts: seq<Act>) {
    && (forall e | e in OnRecord(s, acts) :: Value(s, e.0, e.1) == e.1)
    && (forall a: Address, k: Hash :: Value(s, a, k) != k ==> Value(After(s, acts).0, a, k) == Value(s, a, k))
  }

  /** r is what going back makes of the store after the acts: a slot whose number is on
      record gets it as its value, the others keep theirs. */
  ghost predicate WentBack(s: Store, acts: seq<Act>, r: Store) {
    forall a: Address, k: Hash :: Value(r, a, k) == if (a, k) in OnRecord(s, acts) then k else Value(After(s, acts).0, a, k)
  }

  lemma GoesBack(s: Store, acts: seq<Act>)
    ensures WentBack(s, acts, UndoAll(After(s, acts).0, After(s, acts).1))
  {
    var (t, log) := After(s, acts);
    forall a: Address, k: Hash {
      UndoAllValue(t, log, a, k);
    }
  }

  /** A slot that holds its own number either still does, or has it on record. */
  lemma {:induction false} OwnNumberKept(s: Store, acts: seq<Act>, a: Address, k: Hash)
    requires Value(s, a, k) == k && (a, k) !in OnRecord(s, acts)
    ensures Value(After(s, acts).0, a, k) == k
    decreases acts
  {
    if acts != [] {
      var n := |acts| - 1;
      var (t, log) := After(s, acts[..n]);
      OwnNumberKept(s, acts[..n], a, k);
      OwnNumberKeptByOne(t, acts[n], a, k);
    }
  }

  lemma {:induction false} OwnNumberKeptByOne(s: Store, act: Act, a: Address, k: Hash)
    requires Value(s, a, k) == k && (a, k) !in AfterOne(s, act).1
    ensures Value(AfterOne(s, act).0, a, k) == k
    decreases act
  {
    match act
    case Set(w) =>
      PutValue(s, w, a, k);
      assert AfterOne(s, act).1[0] == (w.a, Value(s, w.a, w.k));
    case Call(acts, fails) =>
      var (t, log) := After(s, acts);
      if fails {
        UndoAllValue(t, log, a, k);
      }
      if (a, k) !in log {
        OwnNumberKept(s, acts, a, k);
      }
  }

  /** Going back restores the store exactly for undoable acts. */
  lemma UndoneIff(s: Store, acts: seq<Act>, r: Store)
    requires WentBack(s, acts, r)
    ensures SameValues(s, r) <==> Undoable(s, acts)
  {
    if SameValues(s, r) {
      UndoneOnlyIf(s, acts, r);
    } else if Undoable(s, acts) {
      UndoneIf(s, acts, r);
    }
  }

  lemma UndoneOnlyIf(s: Store, acts: seq<Act>, r: Store)
    requires WentBack(s, acts, r) && SameValues(s, r)
    ensures Undoable(s, acts)
  {
    var t := After(s, acts).0;
    forall e | e in OnRecord(s, acts)
      ensures Value(s, e.0, e.1) == e.1
    {
      assert Value(r, e.0, e.1) == Value(s, e.0, e.1);
    }
    forall a: Address, k: Hash | Value(s, a, k) != k
      ensures Value(t, a, k) == Value(s, a, k)
    {
      assert Value(r, a, k) == Value(s, a, k);
    }
  }

  lemma UndoneIf(s: Store, acts: seq<Act>, r: Store)
    requires WentBack(s, acts, r) && Undoable(s, acts)
    ensures SameValues(s, r)
  {
    forall a: Address, k: Hash
      ensures Value(r, a, k) == Value(s, a, k)
    {
      if (a, k) in OnRecord(s, acts) {
        assert Value(s, (a, k).0, (a, k).1) == k;
      } else if Value(s, a, k) == k {
        OwnNumberKept(s, acts, a, k);
      }
    }
  }

  /** One write of a new value is undone exactly if the slot held its own number. */
  lemma OneWriteUndoneIff(s: Store, w: Write)
    requires w.v != Value(s, w.a, w.k)
    ensures Undoable(s, [Set(w)]) <==> Value(s, w.a, w.k) == w.k
  {
    OneWrite(s, w);
    var acts := [Set(w)];
    forall a: Address, k: Hash
      ensures Value(After(s, acts).0, a, k) == if a == w.a && k == w.k then w.v else Value(s, a, k)
    {
      PutValue(s, w, a, k);
    }
    assert OnRecord(s, acts)[0] == (w.a, Value(s, w.a, w.k));
  }

  lemma OneWrite(s: Store, w: Write)
    ensures After(s, [Set(w)]) == (Put(s, w), [(w.a, Value(s, w.a, w.k))])
  {
    var acts, none: seq<(Address, Hash)> := [Set(w)], [];
    AfterStep(s, acts, 0);
    assert acts[..0] == [] && acts[..1] == acts && none + [(w.a, Value(s, w.a, w.k))] == [(w.a, Value(s, w.a, w.k))];
  }

  class StateAccount {
    var statesHashes: Store
    // Entry n is the map with one entry that the source keeps at number n + 1. Entries
    // beyond the current number are written again before they are read.
    var snapShotPreimage: seq<(Address, Hash)>

    ghost predicate Valid()
      reads this
    {
      forall n | 0 <= n < |snapShotPreimage| :: snapShotPreimage[n].0 in statesHashes
    }

    constructor ()
      ensures Valid() && statesHashes == map[] && snapShotPreimage == []
    {
      statesHashes, snapShotPreimage := map[], [];
    }

    method Snapshot() returns (sn: nat)
      ensures sn == |snapShotPreimage|
    {
      sn := |snapShotPreimage|;
    }

    method SetState(w: Write)
      requires Valid()
      modifies this
      ensures Valid() && statesHashes == Put(old(statesHashes), w)
      ensures snapShotPreimage == old(snapShotPreimage) + [(w.a, Value(old(statesHashes), w.a, w.k))]
    {
      snapShotPreimage := snapShotPreimage + [(w.a, Value(statesHashes, w.a, w.k))];
      statesHashes := Put(statesHashes, w);
    }

    method RevertToSnapshot(sn: nat)
      requires Valid() && sn <= |snapShotPreimage|
      modifies this
      ensures Valid() && snapShotPreimage == old(snapShotPreimage)[..sn]
      ensures statesHashes == UndoAll(old(statesHashes), old(snapShotPreimage)[sn..])
    {
      ghost var s, log := statesHashes, snapShotPreimage[sn..];
      for n := sn to |snapShotPreimage|
        invariant snapShotPreimage == old(snapShotPreimage) && Valid()
        invariant statesHashes == UndoAll(s, log[..n - sn])
      {
        UndoAllStep(s, log, n - sn);
        statesHashes := UndoOne(statesHashes, snapShotPreimage[n]);
      }
      assert log[..|log|] == log;
      snapShotPreimage := snapShotPreimage[..sn];
    }

    /** A call that takes a snapshot, acts and fails. The storage is as before if and only
        if the acts are undoable. */
    method FailedCall(acts: seq<Act>)
      requires Valid()
      modifies this
      ensures Valid() && snapShotPreimage == old(snapShotPreimage)
      ensures WentBack(old(statesHashes), acts, statesHashes)
      ensures SameValues(old(statesHashes), statesHashes) <==> Undoable(old(statesHashes), acts)
    {
      ghost var s := statesHashes;
      var sn := Snapshot();
      Run(acts);
      RevertToSnapshot(sn);
      GoesBack(s, acts);
      UndoneIff(s, acts, statesHashes);
    }

    /** The acts of a call, with the calls in it. */
    method Run(acts: seq<Act>)
      requires Valid()
      modifies this
      ensures Valid() && statesHashes == After(old(statesHashes), acts).0
      ensures snapShotPreimage == old(snapShotPreimage) + After(old(statesHashes), acts).1
      decreases acts
    {
      for i := 0 to |acts|
        invariant Valid() && statesHashes == After(old(statesHashes), acts[..i]).0
        invariant snapShotPreimage == old(snapShotPreimage) + After(old(statesHashes), acts[..i]).1
      {
        AfterStep(old(statesHashes), acts, i);
        RunOne(acts[i]);
      }
      assert acts[..|acts|] == acts;
    }

    method RunOne(act: Act)
      requires Valid()
      modifies this
      ensures Valid() && statesHashes == AfterOne(old(statesHashes), act).0
      ensures snapShotPreimage == old(snapShotPreimage) + AfterOne(old(statesHashes), act).1
      decreases act
    {
      match act
      case Set(w) => SetState(w);
      case Call(acts, fails) =>
        var sn := Snapshot();
        Run(acts);
        if fails {
          RevertToSnapshot(sn);
        }
    }
  }

  /** A write of 5 to slot 1 of an empty store is still there after the call failed, and
      after the call around it failed as well, which has nothing on record. */
  method FailedWriteStays() returns (db: StateAccount)
    ensures fresh(db) && Value(db.statesHashes, 7, 1) == 5
  {
    db := new StateAccount();
    var w := Write(7, 1, 5);
    var inner := Call([Set(w)], true);
    WriteInFailedCall(w);
    db.FailedCall([inner]);
  }

  lemma WriteInFailedCall(w: Write)
    requires w == Write(7, 1, 5)
    ensures var (t, log) := After(map[], [Call([Set(w)], true)]); log == [] && Value(t, 7, 1) == 5
  {
    var none: Store := map[];
    var acts := [Call([Set(w)], true)];
    OneWrite(none, w);
    PutValue(none, w, 7, 1);
    UndoAllValue(Put(none, w), [(7, 0)], 7, 1);
    AfterStep(none, acts, 0);
    assert acts[..0] == [] && acts[..1] == acts;
  }
}
