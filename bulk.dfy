/**
 * The bulk loops of `Mappings`: `delete_on_server`, `sync_from_server`
 * and `sync_to_server` run one per-language operation on each mapping
 * `iter` returns, in that order, and collect the mappings whose
 * operation returned false.  Mappings are named by their position in
 * the collection.
 */
module Bulk {
  import opened Wrappers
  import opened Codes
  import opened Sorting
  import opened Languages
  import opened Outcomes

  /** What a bulk loop leaves: the mappings, and the positions of the failed ones in loop order. */
  datatype Run = Run(entries: seq<Entry>, fails: seq<nat>)

  lemma PrefixDistinct(idx: seq<nat>)
    requires Distinct(idx) && |idx| > 0
    ensures Distinct(idx[..|idx| - 1]) && idx[|idx| - 1] !in idx[..|idx| - 1]
    ensures forall k :: k in idx <==> k in idx[..|idx| - 1] || k == idx[|idx| - 1]
  {
    assert idx == idx[..|idx| - 1] + [idx[|idx| - 1]];
  }

  // ---------------------------------------------------------------------
  // delete_on_server

  /** The bulk delete over the positions `idx`, after the confirmation. */
  function DeleteAll(es: seq<Entry>, idx: seq<nat>): (r: Run)
    requires InRange(|es|, idx)
    ensures |r.entries| == |es| && InRange(|es|, r.fails)
    decreases |idx|
  {
    if idx == [] then Run(es, [])
    else
      var prev := DeleteAll(es, idx[..|idx| - 1]);
      var p := idx[|idx| - 1];
      var o := DeleteOutcome(prev.entries[p]);
      Run(prev.entries[p := o.after], prev.fails + (if o.ok then [] else [p]))
  }

  /**
   * The bulk delete deletes every selected mapping and touches no other;
   * the failed ones are exactly the selected mappings without a server
   * code, each listed once.
   */
  lemma {:induction false} DeleteAllEffect(es: seq<Entry>, idx: seq<nat>)
    requires InRange(|es|, idx) && Distinct(idx)
    ensures var r := DeleteAll(es, idx);
      && (forall k :: 0 <= k < |es| ==> r.entries[k] == if k in idx then DeleteOutcome(es[k]).after else es[k])
      && (forall k :: k in r.fails <==> k in idx && !Present(es[k].server))
      && Distinct(r.fails)
    decreases |idx|
  {
    if idx != [] {
      PrefixDistinct(idx);
      DeleteAllEffect(es, idx[..|idx| - 1]);
    }
  }

  // ---------------------------------------------------------------------
  // sync_from_server

  /** The bulk download over the positions `idx`; the catalogues one download creates are there for the next. */
  function DownloadAll(es: seq<Entry>, idx: seq<nat>, fixes: seq<Fix>, catalogs: set<string>): (r: (Run, set<string>))
    requires InRange(|es|, idx)
    ensures |r.0.entries| == |es| && InRange(|es|, r.0.fails)
    decreases |idx|
  {
    if idx == [] then (Run(es, []), catalogs)
    else
      var (prev, cats) := DownloadAll(es, idx[..|idx| - 1], fixes, catalogs);
      var p := idx[|idx| - 1];
      var (o, cats') := DownloadOutcome(prev.entries[p], fixes, cats);
      (Run(prev.entries[p := o.after], prev.fails + (if o.ok then [] else [p])), cats')
  }

  /**
   * The bulk download keeps every server field, touches no unselected
   * mapping and gives a selected one at most the local code its server
   * code maps to.  It fails exactly on the selected mappings without a
   * server code, and afterwards the catalogues are the old ones plus one
   * for each selected server language.
   */
  lemma {:induction false} DownloadAllEffect(es: seq<Entry>, idx: seq<nat>, fixes: seq<Fix>, catalogs: set<string>)
    requires InRange(|es|, idx) && Distinct(idx)
    ensures var (r, cats) := DownloadAll(es, idx, fixes, catalogs);
      && (forall k :: 0 <= k < |es| && k !in idx ==> r.entries[k] == es[k])
      && (forall k :: 0 <= k < |es| ==>
            && r.entries[k].server == es[k].server && r.entries[k].name == es[k].name
            && r.entries[k].progress == es[k].progress && r.entries[k].updated == es[k].updated)
      && (forall k :: 0 <= k < |es| && k in idx ==>
            || r.entries[k].local == es[k].local
            || (Present(es[k].server) && r.entries[k].local == Some(ServerToLocal(fixes, es[k].server.value))))
      && (forall k :: k in r.fails <==> k in idx && !Present(es[k].server))
      && Distinct(r.fails)
      && (forall c :: c in cats <==>
            || c in catalogs
            || exists k :: k in idx && Present(es[k].server) && ServerToLocal(fixes, es[k].server.value) == c)
    decreases |idx|
  {
    if idx != [] {
      PrefixDistinct(idx);
      DownloadAllEffect(es, idx[..|idx| - 1], fixes, catalogs);
    }
  }

  // ---------------------------------------------------------------------
  // sync_to_server

  /**
   * The bulk upload over the positions `idx`.  The `ValueError` of a
   * mapping without a local code ends the loop: the second component says
   * it was raised, and the first what the mappings were at that point.
   */
  function UploadAll(es: seq<Entry>, idx: seq<nat>, fixes: seq<Fix>, accepted: set<string>, available: seq<(string, string)>): (r: (Run, bool))
    requires InRange(|es|, idx)
    ensures |r.0.entries| == |es| && InRange(|es|, r.0.fails)
    ensures forall k :: 0 <= k < |es| ==> r.0.entries[k].local == es[k].local
    decreases |idx|
  {
    if idx == [] then (Run(es, []), false)
    else
      var (prev, raised) := UploadAll(es, idx[..|idx| - 1], fixes, accepted, available);
      var p := idx[|idx| - 1];
      if raised then (prev, true)
      else match UploadOutcome(prev.entries[p], fixes, accepted, available)
        case Err(_) => (prev, true)
        case Ok(o) => (Run(prev.entries[p := o.after], prev.fails + (if o.ok then [] else [p])), false)
  }

  /** The bulk upload raises exactly when some selected mapping has no local code. */
  lemma {:induction false} UploadAllRaises(es: seq<Entry>, idx: seq<nat>, fixes: seq<Fix>, accepted: set<string>, available: seq<(string, string)>)
    requires InRange(|es|, idx)
    ensures UploadAll(es, idx, fixes, accepted, available).1 <==> exists k :: k in idx && !Present(es[k].local)
    decreases |idx|
  {
    if idx != [] {
      UploadAllRaises(es, idx[..|idx| - 1], fixes, accepted, available);
      assert idx == idx[..|idx| - 1] + [idx[|idx| - 1]];
    }
  }

  /**
   * When nothing is raised, the bulk upload uploads every selected mapping
   * and touches no other, and the failed ones are exactly the selected
   * mappings whose upload returned false.
   */
  lemma {:induction false} UploadAllEffect(es: seq<Entry>, idx: seq<nat>, fixes: seq<Fix>, accepted: set<string>, available: seq<(string, string)>)
    requires InRange(|es|, idx) && Distinct(idx)
    requires !UploadAll(es, idx, fixes, accepted, available).1
    ensures forall k :: k in idx ==> UploadOutcome(es[k], fixes, accepted, available).Ok?
    ensures var r := UploadAll(es, idx, fixes, accepted, available).0;
      && (forall k :: 0 <= k < |es| ==> r.entries[k] == if k in idx then UploadOutcome(es[k], fixes, accepted, available).value.after else es[k])
      && (forall k :: k in r.fails <==> k in idx && !UploadOutcome(es[k], fixes, accepted, available).value.ok)
      && Distinct(r.fails)
    decreases |idx|
  {
    UploadAllRaises(es, idx, fixes, accepted, available);
    if idx != [] {
      PrefixDistinct(idx);
      var n := |idx| - 1;
      var (prev, raised) := UploadAll(es, idx[..n], fixes, accepted, available);
      assert !raised;
      UploadAllEffect(es, idx[..n], fixes, accepted, available);
    }
  }

  /** Once raised, the loop stops: the mappings after the first one without a local code are untouched. */
  lemma {:induction false} UploadAllStops(es: seq<Entry>, idx: seq<nat>, fixes: seq<Fix>, accepted: set<string>, available: seq<(string, string)>, i: nat)
    requires InRange(|es|, idx) && i < |idx| && !Present(es[idx[i]].local)
    requires forall j :: 0 <= j < i ==> Present(es[idx[j]].local)
    ensures UploadAll(es, idx, fixes, accepted, available) == (UploadAll(es, idx[..i], fixes, accepted, available).0, true)
    decreases |idx|
  {
    var n := |idx| - 1;
    if i < n {
      assert idx[..n][..i] == idx[..i];
      UploadAllStops(es, idx[..n], fixes, accepted, available, i);
      UploadAllRaisedStays(es, idx, fixes, accepted, available, n);
    } else {
      UploadAllStopsLast(es, idx, fixes, accepted, available);
    }
  }

  /** `UploadAllStops` when the mapping without a local code is the last one selected. */
  lemma UploadAllStopsLast(es: seq<Entry>, idx: seq<nat>, fixes: seq<Fix>, accepted: set<string>, available: seq<(string, string)>)
    requires InRange(|es|, idx) && |idx| > 0 && !Present(es[idx[|idx| - 1]].local)
    requires forall j :: 0 <= j < |idx| - 1 ==> Present(es[idx[j]].local)
    ensures UploadAll(es, idx, fixes, accepted, available) == (UploadAll(es, idx[..|idx| - 1], fixes, accepted, available).0, true)
  {
    var n := |idx| - 1;
    UploadAllRaises(es, idx[..n], fixes, accepted, available);
    var prev := UploadAll(es, idx[..n], fixes, accepted, available);
    assert !prev.1 && prev.0.entries[idx[n]].local == es[idx[n]].local;
  }

  /** Once the upload loop has raised, running it over a longer selection changes nothing. */
  lemma {:induction false} UploadAllRaisedStays(es: seq<Entry>, idx: seq<nat>, fixes: seq<Fix>, accepted: set<string>, available: seq<(string, string)>, n: nat)
    requires InRange(|es|, idx) && n <= |idx|
    requires UploadAll(es, idx[..n], fixes, accepted, available).1
    ensures UploadAll(es, idx, fixes, accepted, available) == UploadAll(es, idx[..n], fixes, accepted, available)
    decreases |idx| - n
  {
    if n < |idx| {
      var m := |idx| - 1;
      assert idx[..m][..n] == idx[..n];
      UploadAllRaisedStays(es, idx[..m], fixes, accepted, available, n);
    } else {
      assert idx[..n] == idx;
    }
  }

  // ---------------------------------------------------------------------
  // One turn of each loop

  lemma DeleteAllStep(es: seq<Entry>, idx: seq<nat>, n: nat)
    requires InRange(|es|, idx) && n < |idx|
    ensures var prev := DeleteAll(es, idx[..n]);
      var o := DeleteOutcome(prev.entries[idx[n]]);
      DeleteAll(es, idx[..n + 1]) == Run(prev.entries[idx[n] := o.after], prev.fails + (if o.ok then [] else [idx[n]]))
  {
    assert idx[..n + 1][..n] == idx[..n];
  }

  lemma DownloadAllStep(es: seq<Entry>, idx: seq<nat>, fixes: seq<Fix>, catalogs: set<string>, n: nat)
    requires InRange(|es|, idx) && n < |idx|
    ensures var prev := DownloadAll(es, idx[..n], fixes, catalogs);
      var o := DownloadOutcome(prev.0.entries[idx[n]], fixes, prev.1);
      && DownloadAll(es, idx[..n + 1], fixes, catalogs).0
        == Run(prev.0.entries[idx[n] := o.0.after], prev.0.fails + (if o.0.ok then [] else [idx[n]]))
      && DownloadAll(es, idx[..n + 1], fixes, catalogs).1 == o.1
  {
    assert idx[..n + 1][..n] == idx[..n];
  }

  lemma UploadAllStep(es: seq<Entry>, idx: seq<nat>, fixes: seq<Fix>, accepted: set<string>, available: seq<(string, string)>, n: nat)
    requires InRange(|es|, idx) && n < |idx|
    requires !UploadAll(es, idx[..n], fixes, accepted, available).1
    ensures var prev := UploadAll(es, idx[..n], fixes, accepted, available).0;
      var u := UploadOutcome(prev.entries[idx[n]], fixes, accepted, available);
      var next := UploadAll(es, idx[..n + 1], fixes, accepted, available);
      && (u.Err? ==> next == (prev, true))
      && (u.Ok? ==> !next.1 && next.0 == Run(prev.entries[idx[n] := u.value.after], prev.fails + (if u.value.ok then [] else [idx[n]])))
  {
    assert idx[..n + 1][..n] == idx[..n];
  }
}
