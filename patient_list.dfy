/**
 * The patient list as a value: lookup by id (Array.prototype.findIndex and find) and the
 * insert-or-replace step of savePatientToStorage, with the integrity rules it keeps.
 */
module PatientList {
  import opened Wrappers
  import opened Records

  /** findIndex by id: the first index holding `id`, or -1 when no record has it. */
  function IndexOfId(ps: seq<Patient>, id: string): (i: int)
    ensures -1 <= i < |ps|
    ensures i >= 0 ==> ps[i].id == id && forall j :: 0 <= j < i ==> ps[j].id != id
    ensures i == -1 <==> forall j :: 0 <= j < |ps| ==> ps[j].id != id
    decreases |ps|
  {
    if ps == [] then -1
    else if ps[0].id == id then 0
    else
      var k := IndexOfId(ps[1..], id);
      if k < 0 then -1 else k + 1
  }

  /** The index of the first record with an id is what findIndex returns. */
  lemma IndexOfFirst(ps: seq<Patient>, id: string, i: int)
    requires 0 <= i < |ps| && ps[i].id == id
    requires forall j :: 0 <= j < i ==> ps[j].id != id
    ensures IndexOfId(ps, id) == i
  {
  }

  /** getPatientById: the first record with the id, if any. */
  function FindById(ps: seq<Patient>, id: string): (r: Option<Patient>)
    ensures r.None? <==> forall j :: 0 <= j < |ps| ==> ps[j].id != id
    ensures r.Some? ==> r.value.id == id && r.value in ps
    ensures r.Some? ==> exists i :: 0 <= i < |ps| && ps[i] == r.value && forall j :: 0 <= j < i ==> ps[j].id != id
  {
    var i := IndexOfId(ps, id);
    if i < 0 then None else Some(ps[i])
  }

  /** Replace the first record with the same id in place, or append at the end when there is none. */
  function Upsert(ps: seq<Patient>, p: Patient): (r: seq<Patient>)
    ensures p in r
    ensures |r| == |ps| || r == ps + [p]
  {
    var i := IndexOfId(ps, p.id);
    if i >= 0 then assert ps[i := p][i] == p; ps[i := p] else ps + [p]
  }

  /** Saves each record of `xs` in turn, as loadSampleData does. */
  function SaveAll(ps: seq<Patient>, xs: seq<Patient>): (r: seq<Patient>)
    ensures |ps| <= |r| <= |ps| + |xs|
    decreases |xs|
  {
    if xs == [] then ps else SaveAll(Upsert(ps, xs[0]), xs[1..])
  }

  function Ids(ps: seq<Patient>): set<string> {
    set p | p in ps :: p.id
  }

  predicate UniqueIds(ps: seq<Patient>) {
    forall i, j :: 0 <= i < j < |ps| ==> ps[i].id != ps[j].id
  }

  // ---------------------------------------------------------------------------
  // One save

  /** An existing id: the record at the first matching index is replaced and nothing else moves. */
  lemma UpsertReplacesInPlace(ps: seq<Patient>, p: Patient, i: int)
    requires 0 <= i < |ps| && ps[i].id == p.id
    requires forall j :: 0 <= j < i ==> ps[j].id != p.id
    ensures |Upsert(ps, p)| == |ps|
    ensures Upsert(ps, p)[i] == p
    ensures forall j :: 0 <= j < |ps| && j != i ==> Upsert(ps, p)[j] == ps[j]
  {
    assert IndexOfId(ps, p.id) == i;
  }

  /** A new id: the record is appended at the end. */
  lemma UpsertAppendsNew(ps: seq<Patient>, p: Patient)
    requires p.id !in Ids(ps)
    ensures Upsert(ps, p) == ps + [p]
  {
  }

  /** The list grows by one exactly when the id is new. */
  lemma UpsertLength(ps: seq<Patient>, p: Patient)
    ensures |Upsert(ps, p)| == if p.id in Ids(ps) then |ps| else |ps| + 1
  {
    if p.id in Ids(ps) {
      var q :| q in ps && q.id == p.id;
      var k :| 0 <= k < |ps| && ps[k] == q;
    } else {
      UpsertAppendsNew(ps, p);
    }
  }

  lemma UpsertIds(ps: seq<Patient>, p: Patient)
    ensures Ids(Upsert(ps, p)) == Ids(ps) + {p.id}
  {
    var i := IndexOfId(ps, p.id);
    var r := Upsert(ps, p);
    if i >= 0 {
      forall id | id in Ids(ps) ensures id in Ids(r) {
        var q :| q in ps && q.id == id;
        var k :| 0 <= k < |ps| && ps[k] == q;
        if k == i { assert r[i] == p; } else { assert r[k] == q; }
      }
      forall id | id in Ids(r) ensures id in Ids(ps) + {p.id} {
        var q :| q in r && q.id == id;
        var k :| 0 <= k < |r| && r[k] == q;
        if k != i { assert ps[k] == q; }
      }
    } else {
      assert r == ps + [p];
    }
  }

  /** After saving a record, looking its id up returns exactly that record. */
  lemma FindAfterUpsert(ps: seq<Patient>, p: Patient)
    ensures FindById(Upsert(ps, p), p.id) == Some(p)
  {
    var i := IndexOfId(ps, p.id);
    var r := Upsert(ps, p);
    if i >= 0 {
      IndexOfFirst(r, p.id, i);
    } else {
      IndexOfFirst(r, p.id, |ps|);
    }
  }

  /** Saving a record does not change what any other id looks up to. */
  lemma FindOtherAfterUpsert(ps: seq<Patient>, p: Patient, id: string)
    requires id != p.id
    ensures FindById(Upsert(ps, p), id) == FindById(ps, id)
  {
    var i := IndexOfId(ps, p.id);
    var r := Upsert(ps, p);
    var k := IndexOfId(ps, id);
    if k >= 0 {
      IndexOfFirst(r, id, k);
    } else {
      assert forall j :: 0 <= j < |r| ==> r[j].id != id;
    }
  }

  /** Saving a record that is already what its id looks up to changes nothing. */
  lemma UpsertUnchanged(ps: seq<Patient>, p: Patient)
    requires FindById(ps, p.id) == Some(p)
    ensures Upsert(ps, p) == ps
  {
  }

  /** Saving the same record twice leaves the list as saving it once. */
  lemma UpsertIdempotent(ps: seq<Patient>, p: Patient)
    ensures Upsert(Upsert(ps, p), p) == Upsert(ps, p)
  {
    FindAfterUpsert(ps, p);
    UpsertUnchanged(Upsert(ps, p), p);
  }

  /** Ids stay unique: no save can introduce a second record with an id already present. */
  lemma UpsertKeepsIdsUnique(ps: seq<Patient>, p: Patient)
    requires UniqueIds(ps)
    ensures UniqueIds(Upsert(ps, p))
  {
    var i := IndexOfId(ps, p.id);
    if i >= 0 {
      var r := Upsert(ps, p);
      forall a, b | 0 <= a < b < |r| ensures r[a].id != r[b].id {
        if a == i { assert ps[b].id != ps[i].id; }
        else if b == i { assert ps[a].id != ps[i].id; }
      }
    }
  }

  // ---------------------------------------------------------------------------
  // Several saves

  /** Saving records whose ids are not yet present and pairwise distinct appends them all, in order. */
  lemma {:induction false} SaveAllFresh(ps: seq<Patient>, xs: seq<Patient>)
    requires UniqueIds(xs)
    requires forall x :: x in xs ==> x.id !in Ids(ps)
    ensures SaveAll(ps, xs) == ps + xs
    decreases |xs|
  {
    if xs != [] {
      var ps' := ps + [xs[0]];
      calc {
        SaveAll(ps, xs);
        SaveAll(Upsert(ps, xs[0]), xs[1..]);
        { UpsertAppendsNew(ps, xs[0]); }
        SaveAll(ps', xs[1..]);
        { FreshAfterFirst(ps, xs);
          SaveAllFresh(ps', xs[1..]); }
        ps' + xs[1..];
        { assert xs == [xs[0]] + xs[1..]; }
        ps + xs;
      }
    }
  }

  /** The step of SaveAllFresh: after appending the first record, the rest are still fresh and distinct. */
  lemma FreshAfterFirst(ps: seq<Patient>, xs: seq<Patient>)
    requires xs != [] && UniqueIds(xs)
    requires forall x :: x in xs ==> x.id !in Ids(ps)
    ensures UniqueIds(xs[1..])
    ensures forall x :: x in xs[1..] ==> x.id !in Ids(ps + [xs[0]])
  {
    var ps' := ps + [xs[0]];
    assert Ids(ps') == Ids(ps) + {xs[0].id} by {
      UpsertAppendsNew(ps, xs[0]);
      UpsertIds(ps, xs[0]);
    }
    forall x | x in xs[1..] ensures x.id !in Ids(ps') {
      var k :| 1 <= k < |xs| && xs[k] == x;
      assert xs[0].id != xs[k].id;
    }
  }

  /** Saving records that are all already stored under their ids changes nothing. */
  lemma {:induction false} SaveAllUnchanged(ps: seq<Patient>, xs: seq<Patient>)
    requires forall x :: x in xs ==> FindById(ps, x.id) == Some(x)
    ensures SaveAll(ps, xs) == ps
    decreases |xs|
  {
    if xs != [] {
      UpsertUnchanged(ps, xs[0]);
      SaveAllUnchanged(ps, xs[1..]);
    }
  }

  /** Saves of ids not in `xs` leave the lookup of an id outside `xs` alone. */
  lemma {:induction false} SaveAllOtherId(ps: seq<Patient>, xs: seq<Patient>, id: string)
    requires forall x :: x in xs ==> x.id != id
    ensures FindById(SaveAll(ps, xs), id) == FindById(ps, id)
    decreases |xs|
  {
    if xs != [] {
      FindOtherAfterUpsert(ps, xs[0], id);
      SaveAllOtherId(Upsert(ps, xs[0]), xs[1..], id);
    }
  }

  /** After saving records with distinct ids, each id looks up to the record saved for it. */
  lemma {:induction false} SaveAllFindsEach(ps: seq<Patient>, xs: seq<Patient>)
    requires UniqueIds(xs)
    ensures forall x :: x in xs ==> FindById(SaveAll(ps, xs), x.id) == Some(x)
    decreases |xs|
  {
    if xs != [] {
      var qs := Upsert(ps, xs[0]);
      SaveAllFindsEach(qs, xs[1..]);
      forall x | x in xs[1..] ensures x.id != xs[0].id {
        var k :| 1 <= k < |xs| && xs[k] == x;
      }
      SaveAllOtherId(qs, xs[1..], xs[0].id);
      FindAfterUpsert(ps, xs[0]);
    }
  }

  /** Saving the same records with distinct ids again leaves the list as saving them once. */
  lemma SaveAllIdempotent(ps: seq<Patient>, xs: seq<Patient>)
    requires UniqueIds(xs)
    ensures SaveAll(SaveAll(ps, xs), xs) == SaveAll(ps, xs)
  {
    SaveAllFindsEach(ps, xs);
    SaveAllUnchanged(SaveAll(ps, xs), xs);
  }
}
