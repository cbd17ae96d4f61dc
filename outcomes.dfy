/**
 * What one per-language operation of a `Mapping` does to its fields:
 * `delete_on_server`, `sync_from_server` and `sync_to_server`, with the
 * server, the file system and the upload left as parameters.
 */
module Outcomes {
  import opened Wrappers
  import opened Strings
  import opened Codes
  import opened Languages

  /** The mapping after one operation, and the truth value the operation returned. */
  datatype Outcome = Outcome(after: Entry, ok: bool)

  /** `Mapping.set_server`: the four server-side fields at once, the local code untouched. */
  function WithServer(e: Entry, server: Option<string>, name: Option<string>, progress: Option<int>, updated: Option<int>): (r: Entry)
    ensures r.local == e.local
  {
    e.(server := server, name := name, progress := progress, updated := updated)
  }

  /** `Mapping.set_local`: the local code, the server side untouched. */
  function WithLocal(e: Entry, local: string): (r: Entry)
    ensures r.server == e.server && r.name == e.name && r.progress == e.progress && r.updated == e.updated
  {
    e.(local := Some(local))
  }

  // ---------------------------------------------------------------------
  // delete_on_server

  /**
   * `Mapping.delete_on_server`: with a server code it clears the four
   * server-side fields and succeeds; without one it fails and changes
   * nothing.  The local code is kept either way.
   */
  function DeleteOutcome(e: Entry): (o: Outcome)
    ensures o.ok <==> Present(e.server)
    ensures o.after.local == e.local
    ensures o.ok ==> o.after.server.None? && o.after.name.None? && o.after.progress.None? && o.after.updated.None?
    ensures !o.ok ==> o.after == e
  {
    if Present(e.server) then Outcome(WithServer(e, None, None, None, None), true)
    else Outcome(e, false)
  }

  /** A second delete fails and leaves the mapping as the first one left it. */
  lemma DeleteTwice(e: Entry)
    ensures var o := DeleteOutcome(DeleteOutcome(e).after);
      !o.ok && o.after == DeleteOutcome(e).after
  {
  }

  /** After a delete, a mapping is found only through its local code. */
  lemma DeletedMatchesLocally(e: Entry, code: string)
    ensures DeleteOutcome(e).after.MatchesCode(code) <==>
      Present(e.local) && Lower(e.local.value) == Lower(Replace(code, '-', '_'))
  {
  }

  // ---------------------------------------------------------------------
  // sync_from_server

  /**
   * `Mapping.sync_from_server`.  `catalogs` holds the local codes whose
   * catalogue file exists.  Without a server code the download fails.
   * Otherwise the catalogue of the code `_server_to_local` gives is
   * merged into when it exists, or created from the download, in which
   * case the mapping adopts that local code.
   */
  function DownloadOutcome(e: Entry, fixes: seq<Fix>, catalogs: set<string>): (r: (Outcome, set<string>))
    ensures r.0.ok <==> Present(e.server)
    ensures r.0.after.server == e.server && r.0.after.name == e.name
    ensures r.0.after.progress == e.progress && r.0.after.updated == e.updated
    ensures !r.0.ok ==> r.0.after == e && r.1 == catalogs
    ensures r.0.ok ==>
      var local := ServerToLocal(fixes, e.server.value);
      && r.1 == catalogs + {local}
      && r.0.after.local == (if local in catalogs then e.local else Some(local))
  {
    if !Present(e.server) then (Outcome(e, false), catalogs)
    else
      var local := ServerToLocal(fixes, e.server.value);
      if local in catalogs then (Outcome(e, true), catalogs)
      else (Outcome(WithLocal(e, local), true), catalogs + {local})
  }

  /** A second download changes neither the mapping nor the catalogues the first one left. */
  lemma DownloadIdempotent(e: Entry, fixes: seq<Fix>, catalogs: set<string>)
    ensures var (o, c) := DownloadOutcome(e, fixes, catalogs);
      DownloadOutcome(o.after, fixes, c) == (Outcome(o.after, o.ok), c)
  {
  }

  // ---------------------------------------------------------------------
  // sync_to_server

  /** `Mapping._server_to_name`: the name of the first available language with this code. */
  function DisplayName(available: seq<(string, string)>, code: string): (r: Option<string>)
    ensures r.Some? ==> exists i ::
      && 0 <= i < |available| && available[i] == (r.value, code)
      && forall j :: 0 <= j < i ==> available[j].1 != code
    ensures r.None? <==> forall i :: 0 <= i < |available| ==> available[i].1 != code
  {
    if available == [] then None
    else if available[0].1 == code then Some(available[0].0)
    else DisplayName(available[1..], code)
  }

  /**
   * `Mapping.sync_to_server`.  `accepted` holds the server codes the
   * server lets the project add, `available` the server's (name, code)
   * list.  A mapping without a local code raises `ValueError`.  A mapping
   * already on the server is uploaded.  Otherwise the code
   * `_local_to_server` gives is added and named first, and a refusal of
   * either step fails the upload without changing the mapping.
   */
  function UploadOutcome(e: Entry, fixes: seq<Fix>, accepted: set<string>, available: seq<(string, string)>): (r: Result<Outcome>)
    ensures r.Err? <==> !Present(e.local)
    ensures r.Err? ==> r.error == ValueError
    ensures r.Ok? ==> r.value.after.local == e.local
    ensures r.Ok? && Present(e.server) ==> r.value == Outcome(e, true)
    ensures r.Ok? && !Present(e.server) ==>
      var server := LocalToServer(fixes, e.local.value);
      && (r.value.ok <==> server in accepted && DisplayName(available, server).Some?)
      && (r.value.ok ==> r.value.after == WithServer(e, Some(server), DisplayName(available, server), None, None))
      && (!r.value.ok ==> r.value.after == e)
  {
    if !Present(e.local) then Err(ValueError)
    else if Present(e.server) then Ok(Outcome(e, true))
    else
      var server := LocalToServer(fixes, e.local.value);
      if server !in accepted then Ok(Outcome(e, false))
      else match DisplayName(available, server)
        case None => Ok(Outcome(e, false))
        case Some(name) => Ok(Outcome(WithServer(e, Some(server), Some(name), None, None), true))
  }

  /**
   * A local language of the shape `pt_BR` that no fix names, once created
   * on the server by an upload, downloads back into its own catalogue:
   * the download merges and leaves the mapping as the upload left it.
   */
  lemma UploadThenDownload(e: Entry, fixes: seq<Fix>, accepted: set<string>, available: seq<(string, string)>, catalogs: set<string>)
    requires Present(e.local) && !Present(e.server) && LocalShaped(e.local.value)
    requires forall k :: 0 <= k < |fixes| ==>
      !Names(fixes[k], e.local.value) && !Names(fixes[k], DefaultServerCode(e.local.value))
    requires UploadOutcome(e, fixes, accepted, available).value.ok
    ensures var u := UploadOutcome(e, fixes, accepted, available).value;
      && u.after.server == Some(DefaultServerCode(e.local.value))
      && DownloadOutcome(u.after, fixes, catalogs + {e.local.value}) == (Outcome(u.after, true), catalogs + {e.local.value})
  {
    LocalRoundTrip(fixes, e.local.value);
    LocalToServerResult(fixes, e.local.value);
  }

  /** A mapping an upload put on the server is uploaded again as it is. */
  lemma UploadTwice(e: Entry, fixes: seq<Fix>, accepted: set<string>, available: seq<(string, string)>)
    requires UploadOutcome(e, fixes, accepted, available).Ok?
    requires Present(UploadOutcome(e, fixes, accepted, available).value.after.server)
    ensures var u := UploadOutcome(e, fixes, accepted, available).value;
      UploadOutcome(u.after, fixes, accepted, available) == Ok(Outcome(u.after, true))
  {
  }

  /** Deleting a language and uploading it again recreates it under the code `_local_to_server` gives. */
  lemma DeleteThenUpload(e: Entry, fixes: seq<Fix>, accepted: set<string>, available: seq<(string, string)>)
    requires Present(e.local) && Present(e.server)
    requires UploadOutcome(DeleteOutcome(e).after, fixes, accepted, available).value.ok
    ensures UploadOutcome(DeleteOutcome(e).after, fixes, accepted, available).value.after.server
      == Some(LocalToServer(fixes, e.local.value))
  {
  }
}
