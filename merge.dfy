/** mergeQuotes: reconciling the local collection with a batch of server records.

    For each server record, in batch order, the first local record with the same id is
    looked up. When there is none, the server record is appended; when there is one whose
    text differs, that text is overwritten and a conflict is flagged. MergeAll is this loop
    as a function; MergedView says in closed form what the loop produces. */
module Merge {
  import opened Quotes
  import opened Sequences

  /** The collection after a merge and whether any conflict was flagged. */
  datatype MergeOutcome = MergeOutcome(quotes: seq<Quote>, conflict: bool)

  /** One iteration of the forEach in mergeQuotes. It never drops, moves, re-keys or
      re-categorises a record, and it grows the collection only when the id is unknown. */
  function MergeStep(qs: seq<Quote>, serverQuote: Quote): (r: MergeOutcome)
    ensures |r.quotes| == if HasId(qs, serverQuote.id) then |qs| else |qs| + 1
    ensures forall i :: 0 <= i < |qs| ==> r.quotes[i].id == qs[i].id && r.quotes[i].category == qs[i].category
    ensures r.conflict ==> HasId(qs, serverQuote.id)
  {
    match Find(qs, serverQuote.id)
    case None => MergeOutcome(qs + [serverQuote], false)
    case Some(i) =>
      if qs[i].text != serverQuote.text then
        MergeOutcome(qs[i := qs[i].(text := serverQuote.text)], true)
      else
        MergeOutcome(qs, false)
  }

  /** The whole forEach: the batch's records taken in order, the flag raised by any step. */
  function MergeAll(local: seq<Quote>, batch: seq<Quote>): (r: MergeOutcome)
    ensures |local| <= |r.quotes| <= |local| + |batch|
    decreases |batch|
  {
    if |batch| == 0 then MergeOutcome(local, false)
    else
      var before := MergeAll(local, batch[..|batch| - 1]);
      var step := MergeStep(before.quotes, batch[|batch| - 1]);
      MergeOutcome(step.quotes, before.conflict || step.conflict)
  }

  // ----- The closed form -----

  /** The ids of the batch, in batch order and with repetitions, that no local record carries. */
  function UnknownIds(local: seq<Quote>, batch: seq<Quote>): (ids: seq<int>)
    ensures forall id :: id in ids <==> HasId(batch, id) && !HasId(local, id)
  {
    if |batch| == 0 then []
    else
      var before, last := batch[..|batch| - 1], batch[|batch| - 1];
      assert batch == before + [last];
      assert forall id :: HasId(batch, id) <==> HasId(before, id) || last.id == id by {
        forall id ensures HasId(batch, id) <==> HasId(before, id) || last.id == id {
          FindSnoc(before, last, id);
        }
      }
      UnknownIds(local, before) + (if HasId(local, last.id) then [] else [last.id])
  }

  /** The ids the merge appends: the unknown ones, each once, by first appearance in the batch. */
  function NewIds(local: seq<Quote>, batch: seq<Quote>): (ids: seq<int>)
    ensures forall id :: id in ids <==> HasId(batch, id) && !HasId(local, id)
    ensures NoDuplicates(ids)
  {
    var r := Distinct(UnknownIds(local, batch));
    assert forall id :: id in r <==> id in UnknownIds(local, batch) by {
      forall id ensures id in r <==> id in UnknownIds(local, batch) {
        if id in UnknownIds(local, batch) {
          var k :| 0 <= k < |UnknownIds(local, batch)| && UnknownIds(local, batch)[k] == id;
        }
      }
    }
    r
  }

  /** The text of the last batch record carrying id. */
  function LastText(batch: seq<Quote>, id: int): string
    requires HasId(batch, id)
  {
    batch[FindLast(batch, id).value].text
  }

  /** The category of the first batch record carrying id. */
  function FirstCategory(batch: seq<Quote>, id: int): string
    requires HasId(batch, id)
  {
    batch[Find(batch, id).value].category
  }

  /** Local record i after the merge: the first local record with a batch id takes the text
      of the last batch record with that id; every other record is left as it was. */
  function Refreshed(local: seq<Quote>, batch: seq<Quote>, i: nat): Quote
    requires i < |local|
  {
    var q := local[i];
    if HasId(batch, q.id) && Find(local, q.id) == Some(i) then q.(text := LastText(batch, q.id)) else q
  }

  /** The record appended for an unknown id: id and category of its first batch record, text
      of its last one. */
  function Admitted(batch: seq<Quote>, id: int): Quote
    requires HasId(batch, id)
  {
    Quote(id, LastText(batch, id), FirstCategory(batch, id))
  }

  /** The collection a merge produces, stated without the loop. */
  function MergedView(local: seq<Quote>, batch: seq<Quote>): seq<Quote> {
    var ids := NewIds(local, batch);
    seq(|local|, i requires 0 <= i < |local| => Refreshed(local, batch, i))
    + seq(|ids|, j requires 0 <= j < |ids| => Admitted(batch, ids[j]))
  }

  /** The text the first record with id carries once the prefix `done` of the batch has been
      merged, if there is such a record. */
  function TextBefore(local: seq<Quote>, done: seq<Quote>, id: int): Option<string> {
    if HasId(done, id) then Some(LastText(done, id))
    else if HasId(local, id) then Some(local[Find(local, id).value].text)
    else None
  }

  /** Batch record k meets a record with its id whose text differs. */
  predicate ConflictAt(local: seq<Quote>, batch: seq<Quote>, k: nat)
    requires k < |batch|
  {
    var t := TextBefore(local, batch[..k], batch[k].id);
    t.Some? && t.value != batch[k].text
  }

  predicate DistinctIds(batch: seq<Quote>) {
    forall i, j :: 0 <= i < j < |batch| ==> batch[i].id != batch[j].id
  }

  // ----- The loop computes the closed form -----

  /** The shape of the merged collection: the local records refreshed in place, then one
      admitted record per new id. */
  lemma MergedViewAt(local: seq<Quote>, batch: seq<Quote>)
    ensures |MergedView(local, batch)| == |local| + |NewIds(local, batch)|
    ensures forall i :: 0 <= i < |local| ==> MergedView(local, batch)[i] == Refreshed(local, batch, i)
    ensures forall j :: 0 <= j < |NewIds(local, batch)| ==>
      MergedView(local, batch)[|local| + j] == Admitted(batch, NewIds(local, batch)[j])
  {
  }

  /** Record i of the merged collection. */
  lemma MergedViewIndex(local: seq<Quote>, batch: seq<Quote>, i: nat)
    requires i < |local| + |NewIds(local, batch)|
    ensures |MergedView(local, batch)| == |local| + |NewIds(local, batch)|
    ensures i < |local| ==> MergedView(local, batch)[i] == Refreshed(local, batch, i)
    ensures i >= |local| ==> MergedView(local, batch)[i] == Admitted(batch, NewIds(local, batch)[i - |local|])
  {
  }

  /** The ids of the merged collection: the local ids, then the new ones. */
  lemma MergedViewIds(local: seq<Quote>, batch: seq<Quote>)
    ensures |MergedView(local, batch)| == |local| + |NewIds(local, batch)|
    ensures forall i :: 0 <= i < |local| ==> MergedView(local, batch)[i].id == local[i].id
    ensures forall i :: |local| <= i < |MergedView(local, batch)| ==>
      MergedView(local, batch)[i].id == NewIds(local, batch)[i - |local|]
  {
    MergedViewAt(local, batch);
    var v := MergedView(local, batch);
    forall i | |local| <= i < |v| ensures v[i].id == NewIds(local, batch)[i - |local|] {
      assert v[|local| + (i - |local|)] == v[i];
    }
  }

  /** Find in a collection laid out as the local ids followed by distinct new ids. */
  lemma FindInLayout(v: seq<Quote>, local: seq<Quote>, ids: seq<int>, id: int)
    requires |v| == |local| + |ids| && NoDuplicates(ids)
    requires forall i :: 0 <= i < |local| ==> v[i].id == local[i].id
    requires forall i :: |local| <= i < |v| ==> v[i].id == ids[i - |local|]
    ensures HasId(local, id) ==> Find(v, id) == Find(local, id)
    ensures !HasId(local, id) && id in ids ==> Find(v, id) == Some(|local| + IndexOf(ids, id))
    ensures !HasId(local, id) && id !in ids ==> Find(v, id) == None
  {
    if HasId(local, id) {
      var p := Find(local, id).value;
      FindIs(v, id, p);
    } else if id in ids {
      FindInLayoutNew(v, local, ids, id);
    } else {
      assert forall k :: 0 <= k < |v| ==> v[k].id != id;
    }
  }

  /** The new-id case of FindInLayout: the id is first met at its place among the new ids. */
  lemma FindInLayoutNew(v: seq<Quote>, local: seq<Quote>, ids: seq<int>, id: int)
    requires |v| == |local| + |ids|
    requires forall i :: 0 <= i < |local| ==> v[i].id == local[i].id
    requires forall i :: |local| <= i < |v| ==> v[i].id == ids[i - |local|]
    requires !HasId(local, id) && id in ids
    ensures Find(v, id) == Some(|local| + IndexOf(ids, id))
  {
    var j := IndexOf(ids, id);
    assert v[|local| + j].id == id;
    forall k | 0 <= k < |local| + j ensures v[k].id != id {
      if k < |local| {
        assert v[k].id == local[k].id;
      } else {
        assert v[k].id == ids[k - |local|];
      }
    }
    FindIs(v, id, |local| + j);
  }

  /** Where the first record carrying id sits in the merged collection. */
  lemma FindInView(local: seq<Quote>, batch: seq<Quote>, id: int)
    ensures HasId(local, id) ==> Find(MergedView(local, batch), id) == Find(local, id)
    ensures !HasId(local, id) && id in NewIds(local, batch) ==>
      Find(MergedView(local, batch), id) == Some(|local| + IndexOf(NewIds(local, batch), id))
    ensures !HasId(local, id) && id !in NewIds(local, batch) ==> Find(MergedView(local, batch), id) == None
  {
    MergedViewIds(local, batch);
    FindInLayout(MergedView(local, batch), local, NewIds(local, batch), id);
  }

  /** One more batch record changes a refreshed local record only when it is the first local
      record with that record's id, and then only its text. */
  lemma RefreshedSnoc(local: seq<Quote>, done: seq<Quote>, x: Quote, i: nat)
    requires i < |local|
    ensures Refreshed(local, done + [x], i) ==
      if local[i].id == x.id && Find(local, x.id) == Some(i) then Refreshed(local, done, i).(text := x.text)
      else Refreshed(local, done, i)
  {
    FindSnoc(done, x, local[i].id);
  }

  /** One more batch record changes an admitted record only when it carries its id, and then
      only its text. */
  lemma AdmittedSnoc(done: seq<Quote>, x: Quote, id: int)
    requires HasId(done, id)
    ensures HasId(done + [x], id)
    ensures Admitted(done + [x], id) ==
      if id == x.id then Admitted(done, id).(text := x.text) else Admitted(done, id)
  {
    FindSnoc(done, x, id);
  }

  /** UnknownIds, unfolded at the end of the batch. */
  lemma UnknownIdsSnoc(local: seq<Quote>, done: seq<Quote>, x: Quote)
    ensures UnknownIds(local, done + [x]) ==
      UnknownIds(local, done) + (if HasId(local, x.id) then [] else [x.id])
  {
    assert (done + [x])[..|done|] == done;
  }

  /** The ids appended for a longer batch: one more exactly when the new record's id is
      neither local nor already new. */
  lemma NewIdsSnoc(local: seq<Quote>, done: seq<Quote>, x: Quote)
    ensures NewIds(local, done + [x]) ==
      if HasId(local, x.id) || x.id in NewIds(local, done) then NewIds(local, done)
      else NewIds(local, done) + [x.id]
  {
    var u := UnknownIds(local, done);
    UnknownIdsSnoc(local, done, x);
    assert NewIds(local, done) == Distinct(u);
    assert NewIds(local, done + [x]) == Distinct(u + (if HasId(local, x.id) then [] else [x.id]));
    if HasId(local, x.id) {
      assert u + [] == u;
    } else {
      DistinctSnoc(u, x.id);
      assert x.id in Distinct(u) <==> x.id in u;
    }
  }

  /** Where the first record with a known id sits in the merged collection. */
  function KnownPosition(local: seq<Quote>, done: seq<Quote>, id: int): nat
    requires HasId(local, id) || id in NewIds(local, done)
  {
    if HasId(local, id) then Find(local, id).value else |local| + IndexOf(NewIds(local, done), id)
  }

  /** Record i after a batch record with a known id: only the record at its position changes,
      and only its text. */
  lemma KnownStepAt(local: seq<Quote>, done: seq<Quote>, x: Quote, i: nat)
    requires HasId(local, x.id) || x.id in NewIds(local, done)
    requires i < |local| + |NewIds(local, done)|
    ensures NewIds(local, done + [x]) == NewIds(local, done)
    ensures KnownPosition(local, done, x.id) < |MergedView(local, done)|
    ensures var v, p := MergedView(local, done), KnownPosition(local, done, x.id);
      MergedView(local, done + [x])[i] == if i == p then v[p].(text := x.text) else v[i]
  {
    var ids := NewIds(local, done);
    NewIdsSnoc(local, done, x);
    MergedViewIndex(local, done, i);
    MergedViewIndex(local, done + [x], i);
    if i < |local| {
      RefreshedSnoc(local, done, x, i);
      if !HasId(local, x.id) {
        assert local[i].id != x.id;
      }
    } else {
      AdmittedSnoc(done, x, ids[i - |local|]);
      if HasId(local, x.id) {
        assert ids[i - |local|] != x.id;
      }
    }
  }

  /** A sequence that agrees with v everywhere except for the text at p is v with that text
      replaced. */
  lemma TextUpdated(w: seq<Quote>, v: seq<Quote>, p: nat, t: string)
    requires |w| == |v| && p < |v|
    requires forall i :: 0 <= i < |w| ==> w[i] == if i == p then v[p].(text := t) else v[i]
    ensures w == v[p := v[p].(text := t)]
  {
  }

  /** A known id is found at its known position, which holds the text it had before. */
  lemma KnownFound(local: seq<Quote>, done: seq<Quote>, id: int)
    requires HasId(local, id) || id in NewIds(local, done)
    ensures KnownPosition(local, done, id) < |MergedView(local, done)|
    ensures Find(MergedView(local, done), id) == Some(KnownPosition(local, done, id))
    ensures TextBefore(local, done, id) == Some(MergedView(local, done)[KnownPosition(local, done, id)].text)
  {
    var p := KnownPosition(local, done, id);
    FindInView(local, done, id);
    MergedViewIndex(local, done, p);
    if !HasId(local, id) {
      assert HasId(done, id);
    }
  }

  /** A batch record whose id is already in the merged collection overwrites the text of the
      first record with that id, which held TextBefore. */
  lemma StepOnKnownId(local: seq<Quote>, done: seq<Quote>, x: Quote)
    requires HasId(local, x.id) || x.id in NewIds(local, done)
    ensures var p := KnownPosition(local, done, x.id);
      && Find(MergedView(local, done), x.id) == Some(p)
      && var v := MergedView(local, done);
      && p < |v|
      && MergedView(local, done + [x]) == v[p := v[p].(text := x.text)]
      && TextBefore(local, done, x.id) == Some(v[p].text)
  {
    var v, w := MergedView(local, done), MergedView(local, done + [x]);
    var p := KnownPosition(local, done, x.id);
    KnownFound(local, done, x.id);
    NewIdsSnoc(local, done, x);
    forall i | 0 <= i < |w| ensures w[i] == if i == p then v[p].(text := x.text) else v[i] {
      KnownStepAt(local, done, x, i);
    }
    TextUpdated(w, v, p, x.text);
  }

  /** A batch record whose id is nowhere in the merged collection is appended as it is. */
  lemma StepOnUnknownId(local: seq<Quote>, done: seq<Quote>, x: Quote)
    requires !HasId(local, x.id) && x.id !in NewIds(local, done)
    ensures Find(MergedView(local, done), x.id).None?
    ensures MergedView(local, done + [x]) == MergedView(local, done) + [x]
    ensures TextBefore(local, done, x.id).None?
  {
    var v, ids := MergedView(local, done), NewIds(local, done);
    var w := MergedView(local, done + [x]);
    FindInView(local, done, x.id);
    NewIdsSnoc(local, done, x);
    FindSnoc(done, x, x.id);
    assert |w| == |v| + 1;
    forall i | 0 <= i < |w| ensures w[i] == (v + [x])[i] {
      if i < |local| {
        assert w[i] == v[i] by {
          MergedViewIndex(local, done + [x], i);
          MergedViewIndex(local, done, i);
          assert local[i].id != x.id;
          RefreshedSnoc(local, done, x, i);
        }
      } else if i < |v| {
        assert w[i] == v[i] by {
          MergedViewIndex(local, done + [x], i);
          MergedViewIndex(local, done, i);
          assert ids[i - |local|] != x.id;
          AdmittedSnoc(done, x, ids[i - |local|]);
        }
      } else {
        assert w[i] == x by {
          MergedViewIndex(local, done + [x], i);
        }
      }
    }
    assert w == v + [x];
  }

  /** Merging one more batch record into the closed form gives the closed form of the longer
      batch, and the step flags a conflict exactly when the record's text differs from
      TextBefore. */
  lemma MergeStepOnView(local: seq<Quote>, done: seq<Quote>, x: Quote)
    ensures MergeStep(MergedView(local, done), x).quotes == MergedView(local, done + [x])
    ensures MergeStep(MergedView(local, done), x).conflict <==>
      (var t := TextBefore(local, done, x.id); t.Some? && t.value != x.text)
  {
    if HasId(local, x.id) || x.id in NewIds(local, done) {
      StepOnKnownId(local, done, x);
    } else {
      StepOnUnknownId(local, done, x);
    }
  }

  /** The loop of mergeQuotes produces MergedView. */
  lemma {:induction false} MergeAllIsMergedView(local: seq<Quote>, batch: seq<Quote>)
    ensures MergeAll(local, batch).quotes == MergedView(local, batch)
    decreases |batch|
  {
    if |batch| == 0 {
      assert NewIds(local, batch) == [];
      assert MergedView(local, batch) == local;
    } else {
      var done, x := batch[..|batch| - 1], batch[|batch| - 1];
      assert batch == done + [x];
      MergeAllIsMergedView(local, done);
      MergeStepOnView(local, done, x);
    }
  }

  // ----- What mergeQuotes promises -----

  /** The conflict flag of the loop: raised exactly when some batch record meets a record with
      its id whose text, at that moment, differs. */
  lemma {:induction false} MergeConflictIff(local: seq<Quote>, batch: seq<Quote>)
    ensures MergeAll(local, batch).conflict <==> exists k :: 0 <= k < |batch| && ConflictAt(local, batch, k)
    decreases |batch|
  {
    if |batch| > 0 {
      var done, x := batch[..|batch| - 1], batch[|batch| - 1];
      var before := MergeAll(local, done);
      assert MergeAll(local, batch).conflict == before.conflict || MergeStep(before.quotes, x).conflict;
      assert MergeStep(before.quotes, x).conflict == ConflictAt(local, batch, |done|) by {
        MergeAllIsMergedView(local, done);
        MergeStepOnView(local, done, x);
        assert batch[..|done|] == done;
      }
      assert before.conflict <==> exists k :: 0 <= k < |done| && ConflictAt(local, batch, k) by {
        MergeConflictIff(local, done);
        forall k | 0 <= k < |done| ensures ConflictAt(local, batch, k) == ConflictAt(local, done, k) {
          assert batch[..k] == done[..k];
        }
      }
    }
  }

  /** The order in which UnknownIds first meets two ids is their order in the batch. */
  lemma {:induction false} UnknownIdsFirstSeen(local: seq<Quote>, batch: seq<Quote>, a: int, c: int)
    requires a in UnknownIds(local, batch) && c in UnknownIds(local, batch)
    requires IndexOf(UnknownIds(local, batch), a) < IndexOf(UnknownIds(local, batch), c)
    ensures Find(batch, a).Some? && Find(batch, c).Some?
    ensures Find(batch, a).value < Find(batch, c).value
    decreases |batch|
  {
    var done, x := batch[..|batch| - 1], batch[|batch| - 1];
    assert batch == done + [x];
    var u := UnknownIds(local, done);
    UnknownIdsSnoc(local, done, x);
    FindSnoc(done, x, a);
    FindSnoc(done, x, c);
    if HasId(local, x.id) {
      assert UnknownIds(local, batch) == u;
      UnknownIdsFirstSeen(local, done, a, c);
    } else {
      IndexOfSnoc(u, x.id, a);
      IndexOfSnoc(u, x.id, c);
      if c in u {
        UnknownIdsFirstSeen(local, done, a, c);
      } else {
        assert a in u;
        assert HasId(done, a) && !HasId(done, c);
      }
    }
  }

  /** mergeQuotes never removes, reorders or re-keys a local record, never changes a category,
      leaves untouched every record whose id is not in the batch and every record that is not
      the first one with its id. */
  lemma MergeKeepsExistingRecords(local: seq<Quote>, batch: seq<Quote>)
    ensures var r := MergeAll(local, batch).quotes;
      && |r| >= |local|
      && (forall i :: 0 <= i < |local| ==> r[i].id == local[i].id && r[i].category == local[i].category)
      && (forall i :: 0 <= i < |local| && !HasId(batch, local[i].id) ==> r[i] == local[i])
      && (forall i :: 0 <= i < |local| && Find(local, local[i].id) != Some(i) ==> r[i] == local[i])
  {
    MergeAllIsMergedView(local, batch);
    MergedViewAt(local, batch);
  }

  /** What mergeQuotes appends comes after all local records: one record for each batch id no
      local record carries, in the order those ids first appear in the batch, with the id and
      category of that first batch record. */
  lemma MergeAppendsUnknownInBatchOrder(local: seq<Quote>, batch: seq<Quote>)
    ensures var r := MergeAll(local, batch).quotes;
      && |r| >= |local|
      && (forall j :: |local| <= j < |r| ==> HasId(batch, r[j].id) && !HasId(local, r[j].id))
      && (forall id :: HasId(batch, id) && !HasId(local, id) ==> exists j :: |local| <= j < |r| && r[j].id == id)
      && (forall i, j :: |local| <= i < j < |r| ==> Find(batch, r[i].id).value < Find(batch, r[j].id).value)
      && (forall j :: |local| <= j < |r| ==> r[j].category == batch[Find(batch, r[j].id).value].category)
  {
    var r := MergeAll(local, batch).quotes;
    var u, ids := UnknownIds(local, batch), NewIds(local, batch);
    MergeAllIsMergedView(local, batch);
    MergedViewIds(local, batch);
    MergedViewAt(local, batch);
    forall id | HasId(batch, id) && !HasId(local, id) ensures exists j :: |local| <= j < |r| && r[j].id == id {
      var j := IndexOf(ids, id);
      assert r[|local| + j].id == id;
    }
    forall i, j | |local| <= i < j < |r| ensures Find(batch, r[i].id).value < Find(batch, r[j].id).value {
      DistinctKeepsFirstSeenOrder(u);
      assert ids[i - |local|] == r[i].id && ids[j - |local|] == r[j].id;
      UnknownIdsFirstSeen(local, batch, r[i].id, r[j].id);
    }
    forall j | |local| <= j < |r| ensures r[j].category == batch[Find(batch, r[j].id).value].category {
      assert r[|local| + (j - |local|)] == r[j];
    }
  }

  /** After mergeQuotes every batch id is present, and the first record carrying it holds the
      text of the last batch record with that id. */
  lemma MergeDeliversBatch(local: seq<Quote>, batch: seq<Quote>)
    ensures var r := MergeAll(local, batch).quotes;
      forall k :: 0 <= k < |batch| ==>
        && Find(r, batch[k].id).Some?
        && r[Find(r, batch[k].id).value].text == LastText(batch, batch[k].id)
  {
    var r := MergeAll(local, batch).quotes;
    MergeAllIsMergedView(local, batch);
    forall k | 0 <= k < |batch|
      ensures Find(r, batch[k].id).Some? && r[Find(r, batch[k].id).value].text == LastText(batch, batch[k].id)
    {
      var id := batch[k].id;
      FindInView(local, batch, id);
      if HasId(local, id) {
        MergedViewIndex(local, batch, Find(local, id).value);
      } else {
        MergedViewIndex(local, batch, |local| + IndexOf(NewIds(local, batch), id));
      }
    }
  }

  /** In a batch without repeated ids each record is the last one with its id. */
  lemma LastTextOfDistinct(batch: seq<Quote>, k: nat)
    requires DistinctIds(batch) && k < |batch|
    ensures HasId(batch, batch[k].id) && LastText(batch, batch[k].id) == batch[k].text
  {
  }

  /** With distinct batch ids, the first record carrying each batch id ends up with that batch
      record's text. */
  lemma MergeDeliversDistinctBatch(local: seq<Quote>, batch: seq<Quote>)
    requires DistinctIds(batch)
    ensures var r := MergeAll(local, batch).quotes;
      forall k :: 0 <= k < |batch| ==>
        && Find(r, batch[k].id).Some?
        && r[Find(r, batch[k].id).value].text == batch[k].text
  {
    MergeDeliversBatch(local, batch);
    forall k | 0 <= k < |batch| ensures LastText(batch, batch[k].id) == batch[k].text {
      LastTextOfDistinct(batch, k);
    }
  }

  /** With distinct batch ids the conflict flag is raised exactly when some batch record
      meets a local record with its id and a different text. */
  lemma MergeConflictIffDistinct(local: seq<Quote>, batch: seq<Quote>)
    requires DistinctIds(batch)
    ensures MergeAll(local, batch).conflict <==>
      exists k :: 0 <= k < |batch| && HasId(local, batch[k].id)
        && local[Find(local, batch[k].id).value].text != batch[k].text
  {
    MergeConflictIff(local, batch);
    forall k | 0 <= k < |batch|
      ensures ConflictAt(local, batch, k) <==>
        HasId(local, batch[k].id) && local[Find(local, batch[k].id).value].text != batch[k].text
    {
      assert !HasId(batch[..k], batch[k].id);
    }
  }

  /** Merging the same batch again leaves the collection as the first merge left it. */
  lemma MergeIdempotent(local: seq<Quote>, batch: seq<Quote>)
    ensures var r := MergeAll(local, batch).quotes;
      MergeAll(r, batch).quotes == r
  {
    var r := MergeAll(local, batch).quotes;
    MergeDeliversBatch(local, batch);
    MergeAllIsMergedView(r, batch);
    var ids := NewIds(r, batch);
    forall i | 0 <= i < |r| ensures MergedView(r, batch)[i] == r[i] {
      MergedViewIndex(r, batch, i);
      if HasId(batch, r[i].id) && Find(r, r[i].id) == Some(i) {
        var k :| 0 <= k < |batch| && batch[k].id == r[i].id;
      }
    }
    assert |MergedView(r, batch)| == |r| + |ids|;
  }

  /** With distinct batch ids the second merge of the same batch flags no conflict. */
  lemma MergeTwiceReportsNoConflict(local: seq<Quote>, batch: seq<Quote>)
    requires DistinctIds(batch)
    ensures var r := MergeAll(local, batch).quotes;
      MergeAll(r, batch) == MergeOutcome(r, false)
  {
    var r := MergeAll(local, batch).quotes;
    MergeIdempotent(local, batch);
    MergeDeliversDistinctBatch(local, batch);
    MergeConflictIffDistinct(r, batch);
  }

  /** Without distinct ids the second merge can flag a conflict again: a batch that repeats a new
      id with two texts appends it, overwrites it, and on every later merge overwrites it twice. */
  lemma RepeatedIdConflictsAgain()
    ensures var batch := [Quote(9, "a", "General"), Quote(9, "b", "General")];
      var first := MergeAll([], batch);
      && first == MergeOutcome([Quote(9, "b", "General")], true)
      && MergeAll(first.quotes, batch) == first
  {
    var x, y := Quote(9, "a", "General"), Quote(9, "b", "General");
    var batch := [x, y];
    assert batch[..1] == [x] && [x][..0] == [];
    assert Find([x], 9) == Some(0);
    assert Find([y], 9) == Some(0);
    assert MergeAll([], [x]) == MergeOutcome([x], false);
    assert MergeAll([y], [x]) == MergeOutcome([x], true);
  }

  /** A fetched response merged: every one of the first five posts is present afterwards, and
      whatever is appended is one of them, in category "General". */
  lemma FetchedPostsMerged(local: seq<Quote>, posts: seq<ServerPost>)
    ensures var r := MergeAll(local, FormatServerQuotes(posts)).quotes;
      && (forall k :: 0 <= k < |posts| && k < ServerBatchSize ==> HasId(r, posts[k].id))
      && (forall j :: |local| <= j < |r| ==>
            r[j].category == ServerCategory
            && exists k :: 0 <= k < |posts| && k < ServerBatchSize && posts[k].id == r[j].id)
  {
    var batch := FormatServerQuotes(posts);
    var r := MergeAll(local, batch).quotes;
    MergeDeliversBatch(local, batch);
    MergeAppendsUnknownInBatchOrder(local, batch);
    forall k | 0 <= k < |posts| && k < ServerBatchSize ensures HasId(r, posts[k].id) {
      assert batch[k].id == posts[k].id;
    }
    forall j | |local| <= j < |r|
      ensures exists k :: 0 <= k < |posts| && k < ServerBatchSize && posts[k].id == r[j].id
    {
      var k := Find(batch, r[j].id).value;
      assert posts[k].id == r[j].id;
    }
  }
}
