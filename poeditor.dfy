/**
 * The two classes of the reconciliation layer: `Mapping`, whose fields
 * its operations update in place, and `Mappings`, the list of mappings of
 * one project.  Every method is proved against the value-level model:
 * a mapping's new state is the matching outcome of its old state, and
 * the collection's new state is the matching loop over its old states.
 */
module Poeditor {
  import opened Wrappers
  import opened Strings
  import opened Codes
  import opened Sorting
  import opened Languages
  import opened Outcomes
  import opened Reconciliation
  import opened Bulk
  import opened Projects

  class Mapping {
    var local: Option<string>
    var server: Option<string>
    var name: Option<string>
    var progress: Option<int>
    var updated: Option<int>

    /** The five fields as a value. */
    function Value(): Entry
      reads this
    {
      Entry(local, server, name, progress, updated)
    }

    /** `Mapping.create_local`. */
    constructor CreateLocal(local: string)
      ensures Value() == LocalOnly(local)
    {
      this.local := Some(local);
      server, name, progress, updated := None, None, None, None;
    }

    /** `Mapping.create_server`. */
    constructor CreateServer(server: string, name: string)
      ensures Value() == ServerOnly(server, name)
    {
      local := None;
      this.server, this.name := Some(server), Some(name);
      progress, updated := None, None;
    }

    /** `Mapping.set_local`. */
    method SetLocal(local: string)
      modifies this
      ensures Value() == WithLocal(old(Value()), local)
    {
      this.local := Some(local);
    }

    /** `Mapping.set_server`. */
    method SetServer(server: Option<string>, name: Option<string>, progress: Option<int>, updated: Option<int>)
      modifies this
      ensures Value() == WithServer(old(Value()), server, name, progress, updated)
    {
      this.server, this.name, this.progress, this.updated := server, name, progress, updated;
    }

    /** `Mapping._local_to_server`: the fixes table searched in order, then the default rule. */
    method LocalToServer(fixes: seq<Fix>) returns (code: string)
      requires local.Some?
      ensures code == Codes.LocalToServer(fixes, local.value)
    {
      var i := 0;
      while i < |fixes|
        invariant 0 <= i <= |fixes|
        invariant forall j :: 0 <= j < i ==> !Names(fixes[j], local.value)
      {
        if fixes[i].local == local.value || fixes[i].server == local.value {
          assert FirstFix(fixes, local.value) == Some(i);
          return fixes[i].server;
        }
        i := i + 1;
      }
      return DefaultServerCode(local.value);
    }

    /** `Mapping._server_to_local`: the fixes table searched in order, then the default rule. */
    method ServerToLocal(fixes: seq<Fix>) returns (code: string)
      requires server.Some?
      ensures code == Codes.ServerToLocal(fixes, server.value)
    {
      var i := 0;
      while i < |fixes|
        invariant 0 <= i <= |fixes|
        invariant forall j :: 0 <= j < i ==> !Names(fixes[j], server.value)
      {
        if fixes[i].local == server.value || fixes[i].server == server.value {
          assert FirstFix(fixes, server.value) == Some(i);
          return fixes[i].local;
        }
        i := i + 1;
      }
      var parts := Split(server.value, '-');
      parts := parts[..1] + MapEach(parts[1..], UpperChar);
      return Join(parts, '_');
    }

    /** `Mapping._server_to_name`: the first language of the server's list with this code; `None` is the `KeyError`. */
    method ServerToName(available: seq<(string, string)>, code: string) returns (r: Option<string>)
      ensures r == DisplayName(available, code)
    {
      var i := 0;
      while i < |available|
        invariant 0 <= i <= |available|
        invariant DisplayName(available, code) == DisplayName(available[i..], code)
      {
        if available[i].1 == code {
          return Some(available[i].0);
        }
        assert available[i..][1..] == available[i + 1..];
        i := i + 1;
      }
      return None;
    }

    /**
     * `Mapping.sync_from_server`; `catalogs` holds the local codes whose
     * catalogue file exists, and the second result what it holds after.
     */
    method SyncFromServer(fixes: seq<Fix>, catalogs: set<string>) returns (ok: bool, after: set<string>)
      modifies this
      ensures (Outcome(Value(), ok), after) == DownloadOutcome(old(Value()), fixes, catalogs)
    {
      if !Present(server) {
        return false, catalogs;
      }
      var code := ServerToLocal(fixes);
      after := catalogs;
      if code !in catalogs {
        SetLocal(code);
        after := catalogs + {code};
      }
      ok := true;
    }

    /**
     * `Mapping.sync_to_server`; `accepted` holds the codes the server lets
     * the project add, `available` the server's (name, code) list.
     */
    method SyncToServer(fixes: seq<Fix>, accepted: set<string>, available: seq<(string, string)>) returns (r: Result<bool>)
      modifies this
      ensures match UploadOutcome(old(Value()), fixes, accepted, available)
        case Err(e) => r == Err(e) && Value() == old(Value())
        case Ok(o) => r == Ok(o.ok) && Value() == o.after
    {
      if !Present(local) {
        return Err(ValueError);
      }
      if !Present(server) {
        var code := LocalToServer(fixes);
        if code !in accepted {
          return Ok(false);
        }
        var display := ServerToName(available, code);
        if display.None? {
          return Ok(false);
        }
        SetServer(Some(code), display, None, None);
      }
      return Ok(true);
    }

    /** `Mapping.delete_on_server`. */
    method DeleteOnServer() returns (ok: bool)
      modifies this
      ensures Outcome(Value(), ok) == DeleteOutcome(old(Value()))
    {
      if Present(server) {
        SetServer(None, None, None, None);
        return true;
      }
      return false;
    }
  }

  /** The states of the mappings `ms`, in order. */
  function StatesOf(ms: seq<Mapping>): (r: seq<Entry>)
    reads ms
    ensures |r| == |ms| && forall k :: 0 <= k < |ms| ==> r[k] == ms[k].Value()
  {
    if ms == [] then [] else StatesOf(ms[..|ms| - 1]) + [ms[|ms| - 1].Value()]
  }

  class Mappings {
    const projectName: string
    const projectId: int
    const fixes: seq<Fix>
    var mappings: seq<Mapping>

    /** Every mapping is a separate object: the collection only ever appends new ones. */
    ghost predicate Valid()
      reads this
    {
      Distinct(mappings)
    }

    /** The states of the mappings, in insertion order. */
    function Entries(): seq<Entry>
      reads this, mappings
    {
      StatesOf(mappings)
    }

    constructor (projectName: string, projectId: int, fixes: seq<Fix>)
      ensures this.projectName == projectName && this.projectId == projectId && this.fixes == fixes
      ensures mappings == [] && Valid()
    {
      this.projectName, this.projectId, this.fixes := projectName, projectId, fixes;
      mappings := [];
    }

    /** `Mappings.add_mapping`: appends; the collection stays valid exactly when the mapping is new to it. */
    method AddMapping(m: Mapping)
      modifies this
      ensures mappings == old(mappings) + [m]
      ensures Entries() == old(Entries()) + [m.Value()]
      ensures Valid() <==> old(Valid()) && m !in old(mappings)
    {
      mappings := mappings + [m];
      assert Valid() ==> m !in old(mappings) by {
        if m in old(mappings) {
          var k :| 0 <= k < |old(mappings)| && old(mappings)[k] == m;
          assert mappings[k] == mappings[|mappings| - 1];
        }
      }
    }

    /** `find_mapping` inside `get_mapping`: the first mapping matching `code`, or `null` for `None`. */
    method FindMapping(code: string) returns (m: Mapping?)
      ensures m == null <==> FindIndex(Entries(), code).None?
      ensures m != null ==> m == mappings[FindIndex(Entries(), code).value]
    {
      var i := 0;
      while i < |mappings|
        invariant 0 <= i <= |mappings|
        invariant forall j :: 0 <= j < i ==> !Entries()[j].MatchesCode(code)
      {
        if mappings[i].Value().MatchesCode(code) {
          assert Entries()[i].MatchesCode(code);
          return mappings[i];
        }
        i := i + 1;
      }
      return null;
    }

    /** The loop over the fixes table in `get_mapping`: the first mapping matching the local side of the first usable fix. */
    method FixesFallback(lowered: string) returns (m: Mapping?)
      ensures m == null <==> FallbackFix(Entries(), fixes, lowered).None?
      ensures m != null ==> m == mappings[FindIndex(Entries(), fixes[FallbackFix(Entries(), fixes, lowered).value].local).value]
    {
      ghost var es := Entries();
      var k := 0;
      while k < |fixes|
        invariant 0 <= k <= |fixes|
        invariant forall j :: 0 <= j < k ==> !Usable(es, fixes[j], lowered)
      {
        if FixHit(fixes[k], lowered) {
          m := FindMapping(fixes[k].local);
          assert Entries() == es;
          if m != null {
            FallbackFixAt(es, fixes, lowered, k);
            return m;
          }
        }
        assert !Usable(es, fixes[k], lowered);
        k := k + 1;
      }
      assert FallbackFix(es, fixes, lowered).None?;
      return null;
    }

    /** `Mappings.get_mapping`; the error is the `KeyError` it raises. */
    method GetMapping(code: string) returns (r: Result<Mapping>)
      ensures r.Err? <==> GetIndex(Entries(), fixes, code).None?
      ensures r.Err? ==> r.error == KeyError
      ensures r.Ok? ==> r.value == mappings[GetIndex(Entries(), fixes, code).value]
    {
      var m := FindMapping(code);
      if m == null {
        m := FixesFallback(Lower(code));
      }
      if m == null {
        return Err(KeyError);
      }
      return Ok(m);
    }

    /** The filtering step of `Mappings.iter`: the mappings some filter code matches, in insertion order. */
    method Select(filter: seq<string>) returns (result: seq<Mapping>)
      ensures result == Pick(mappings, Selection(Entries(), filter))
    {
      if filter == [] {
        return mappings;
      }
      ghost var es := Entries();
      ghost var sel: seq<nat> := [];
      result := [];
      var i := 0;
      while i < |mappings|
        invariant 0 <= i <= |mappings|
        invariant sel == SelectUpTo(es, filter, i)
        invariant result == Pick(mappings, sel)
      {
        var j := 0;
        while j < |filter|
          invariant 0 <= j <= |filter|
          invariant forall f :: 0 <= f < j ==> !es[i].MatchesCode(filter[f])
        {
          if mappings[i].Value().MatchesCode(filter[j]) {
            assert Wanted(es[i], filter);
            result, sel := result + [mappings[i]], sel + [i];
            break;
          }
          j := j + 1;
        }
        i := i + 1;
      }
    }

    /**
     * `Mappings.iter`: the mappings the filter keeps, in insertion order,
     * then sorted by the column `specs` names and reversed on `r`.
     */
    method Iter(filter: seq<string>, specs: string) returns (result: seq<Mapping>)
      ensures result == Pick(mappings, Order(Entries(), filter, specs))
    {
      result := Select(filter);
      ghost var sel := Selection(Entries(), filter);
      var column := SortColumn(specs);
      if column.Some? {
        assert StatesOf(result) == Pick(Entries(), sel);
        var perm := StableSort(Keys(StatesOf(result), column.value), Range(|result|));
        result, sel := Pick(result, perm), Pick(sel, perm);
        assert sel == SortSelected(Entries(), Selection(Entries(), filter), column.value);
      }
      if 'r' in specs {
        result, sel := Reversed(result), Reversed(sel);
      }
      assert sel == Order(Entries(), filter, specs);
    }

    /** `Mappings.print_table` without the table text: every mapping `iter` returns is counted, none fails. */
    method PrintTable(filter: seq<string>, specs: string) returns (count: nat, fails: seq<Mapping>)
      ensures count == |Order(Entries(), filter, specs)| && fails == []
    {
      var view := Iter(filter, specs);
      count, fails := 0, [];
      var i := 0;
      while i < |view|
        invariant 0 <= i <= |view| && count == i
      {
        count := count + 1;
        i := i + 1;
      }
    }

    /** One turn of the bulk delete: the mapping at position `p` is deleted on the server, no other changes. */
    method DeleteAt(m: Mapping, ghost p: nat) returns (ok: bool)
      requires Valid() && p < |mappings| && mappings[p] == m
      modifies m
      ensures var o := DeleteOutcome(old(Entries())[p]);
        Entries() == old(Entries())[p := o.after] && ok == o.ok
    {
      ghost var before := Entries();
      ok := m.DeleteOnServer();
      assert Entries() == before[p := m.Value()] by {
        forall k | 0 <= k < |mappings| ensures Entries()[k] == before[p := m.Value()][k] {
          if k != p {
            assert mappings[k] != m;
          }
        }
      }
    }

    /** One turn of the bulk download: the mapping at position `p` is downloaded, no other changes. */
    method DownloadAt(m: Mapping, ghost p: nat, catalogs: set<string>) returns (ok: bool, after: set<string>)
      requires Valid() && p < |mappings| && mappings[p] == m
      modifies m
      ensures var (o, cats) := DownloadOutcome(old(Entries())[p], fixes, catalogs);
        Entries() == old(Entries())[p := o.after] && ok == o.ok && after == cats
    {
      ghost var before := Entries();
      ok, after := m.SyncFromServer(fixes, catalogs);
      assert Entries() == before[p := m.Value()] by {
        forall k | 0 <= k < |mappings| ensures Entries()[k] == before[p := m.Value()][k] {
          if k != p {
            assert mappings[k] != m;
          }
        }
      }
    }

    /** One turn of the bulk upload: the mapping at position `p` is uploaded, no other changes. */
    method UploadAt(m: Mapping, ghost p: nat, accepted: set<string>, available: seq<(string, string)>) returns (r: Result<bool>)
      requires Valid() && p < |mappings| && mappings[p] == m
      modifies m
      ensures var u := UploadOutcome(old(Entries())[p], fixes, accepted, available);
        && (u.Err? ==> r == Err(u.error) && Entries() == old(Entries()))
        && (u.Ok? ==> r == Ok(u.value.ok) && Entries() == old(Entries())[p := u.value.after])
    {
      ghost var before := Entries();
      r := m.SyncToServer(fixes, accepted, available);
      assert Entries() == before[p := m.Value()] by {
        forall k | 0 <= k < |mappings| ensures Entries()[k] == before[p := m.Value()][k] {
          if k != p {
            assert mappings[k] != m;
          }
        }
      }
    }

    /**
     * `Mappings.sync_from_server`: downloads each mapping `iter` returns;
     * `catalogs` holds the local codes whose catalogue file exists, and the
     * last result what it holds after.
     */
    method SyncFromServer(filter: seq<string>, specs: string, catalogs: set<string>)
      returns (count: nat, fails: seq<Mapping>, after: set<string>)
      requires Valid()
      modifies mappings
      ensures var order := Order(old(Entries()), filter, specs);
        var (run, cats) := DownloadAll(old(Entries()), order, fixes, catalogs);
        && count == |order| && Entries() == run.entries
        && fails == Pick(mappings, run.fails) && after == cats
    {
      var view := Iter(filter, specs);
      OrderDistinct(Entries(), filter, specs);
      count, fails, after := DownloadEach(view, Order(Entries(), filter, specs), catalogs);
    }

    /** The loop of `sync_from_server` over `view`, the mappings at the positions `order`. */
    method DownloadEach(view: seq<Mapping>, ghost order: seq<nat>, catalogs: set<string>)
      returns (count: nat, fails: seq<Mapping>, after: set<string>)
      requires Valid() && InRange(|mappings|, order) && view == Pick(mappings, order)
      modifies mappings
      ensures var (run, cats) := DownloadAll(old(Entries()), order, fixes, catalogs);
        && count == |order| && Entries() == run.entries
        && fails == Pick(mappings, run.fails) && after == cats
    {
      ghost var start := Entries();
      ghost var failed: seq<nat> := [];
      count, fails, after := 0, [], catalogs;
      var i := 0;
      while i < |view|
        invariant 0 <= i <= |view| && count == i
        invariant DownloadAll(start, order[..i], fixes, catalogs).0 == Run(Entries(), failed)
        invariant DownloadAll(start, order[..i], fixes, catalogs).1 == after
        invariant fails == Pick(mappings, failed)
      {
        var m := view[i];
        ghost var p := order[i];
        assert m == mappings[p];
        ghost var o := DownloadOutcome(Entries()[p], fixes, after);
        var ok, cats := DownloadAt(m, p, after);
        assert ok == o.0.ok && cats == o.1;
        DownloadAllStep(start, order, fixes, catalogs, i);
        count := count + 1;
        if !ok {
          PickAppend(mappings, failed, p);
          fails, failed := fails + [m], failed + [p];
        }
        after := cats;
        i := i + 1;
      }
      assert order[..i] == order;
    }

    /**
     * `Mappings.sync_to_server`: uploads each mapping `iter` returns; the
     * error is the `ValueError` that ends the loop at a mapping without a
     * local code.
     */
    method SyncToServer(filter: seq<string>, specs: string, accepted: set<string>, available: seq<(string, string)>)
      returns (r: Result<(nat, seq<Mapping>)>)
      requires Valid()
      modifies mappings
      ensures var order := Order(old(Entries()), filter, specs);
        var (run, raised) := UploadAll(old(Entries()), order, fixes, accepted, available);
        && Entries() == run.entries
        && (r.Err? <==> raised) && (r.Err? ==> r.error == ValueError)
        && (r.Ok? ==> r.value == (|order|, Pick(mappings, run.fails)))
    {
      var view := Iter(filter, specs);
      OrderDistinct(Entries(), filter, specs);
      r := UploadEach(view, Order(Entries(), filter, specs), accepted, available);
    }

    /** The loop of `sync_to_server` over `view`, the mappings at the positions `order`. */
    method UploadEach(view: seq<Mapping>, ghost order: seq<nat>, accepted: set<string>, available: seq<(string, string)>)
      returns (r: Result<(nat, seq<Mapping>)>)
      requires Valid() && InRange(|mappings|, order) && view == Pick(mappings, order)
      modifies mappings
      ensures var (run, raised) := UploadAll(old(Entries()), order, fixes, accepted, available);
        && Entries() == run.entries
        && (r.Err? <==> raised) && (r.Err? ==> r.error == ValueError)
        && (r.Ok? ==> r.value == (|order|, Pick(mappings, run.fails)))
    {
      ghost var start := Entries();
      ghost var failed: seq<nat> := [];
      var count, fails := 0, [];
      var i := 0;
      while i < |view|
        invariant 0 <= i <= |view| && count == i
        invariant UploadAll(start, order[..i], fixes, accepted, available).0 == Run(Entries(), failed)
        invariant !UploadAll(start, order[..i], fixes, accepted, available).1
        invariant fails == Pick(mappings, failed)
      {
        var m := view[i];
        ghost var p := order[i];
        assert m == mappings[p];
        ghost var es := Entries();
        ghost var u := UploadOutcome(es[p], fixes, accepted, available);
        var result := UploadAt(m, p, accepted, available);
        UploadAllStep(start, order, fixes, accepted, available, i);
        if result.Err? {
          assert u.Err? && Entries() == es;
          UploadAllRaisedStays(start, order, fixes, accepted, available, i + 1);
          return Err(ValueError);
        }
        assert u.Ok? && Entries() == es[p := u.value.after] && result.value == u.value.ok;
        count := count + 1;
        if !result.value {
          PickAppend(mappings, failed, p);
          fails, failed := fails + [m], failed + [p];
        }
        i := i + 1;
      }
      assert order[..i] == order;
      return Ok((count, fails));
    }

    /**
     * `Mappings.delete_on_server`: unless the confirmation, lower-cased,
     * is the project name, nothing happens and `None` comes back; else
     * each mapping `iter` returns is deleted on the server.
     */
    method DeleteOnServer(confirmation: string, filter: seq<string>, specs: string)
      returns (r: Option<(nat, seq<Mapping>)>)
      requires Valid()
      modifies mappings
      ensures Lower(confirmation) != projectName ==> r.None? && Entries() == old(Entries())
      ensures Lower(confirmation) == projectName ==>
        var order := Order(old(Entries()), filter, specs);
        var run := DeleteAll(old(Entries()), order);
        && Entries() == run.entries && r == Some((|order|, Pick(mappings, run.fails)))
    {
      if Lower(confirmation) != projectName {
        return None;
      }
      var view := Iter(filter, specs);
      OrderDistinct(Entries(), filter, specs);
      var count, fails := DeleteEach(view, Order(Entries(), filter, specs));
      return Some((count, fails));
    }

    /** The loop of `delete_on_server` over `view`, the mappings at the positions `order`. */
    method DeleteEach(view: seq<Mapping>, ghost order: seq<nat>) returns (count: nat, fails: seq<Mapping>)
      requires Valid() && InRange(|mappings|, order) && view == Pick(mappings, order)
      modifies mappings
      ensures var run := DeleteAll(old(Entries()), order);
        && count == |order| && Entries() == run.entries && fails == Pick(mappings, run.fails)
    {
      ghost var start := Entries();
      ghost var failed: seq<nat> := [];
      count, fails := 0, [];
      var i := 0;
      while i < |view|
        invariant 0 <= i <= |view| && count == i
        invariant DeleteAll(start, order[..i]) == Run(Entries(), failed)
        invariant fails == Pick(mappings, failed)
      {
        var m := view[i];
        ghost var p := order[i];
        assert m == mappings[p];
        var ok := DeleteAt(m, p);
        DeleteAllStep(start, order, i);
        count := count + 1;
        if !ok {
          PickAppend(mappings, failed, p);
          fails, failed := fails + [m], failed + [p];
        }
        i := i + 1;
      }
      assert order[..i] == order;
    }

    /**
     * One turn of the reconciliation loop of `from_project_name`: the
     * mapping `get_mapping` finds takes the language's server fields, or a
     * new server-only mapping is appended.
     */
    method AdoptLanguage(lang: ServerLanguage)
      requires Valid()
      modifies this, mappings
      ensures Valid() && Entries() == Adopt(old(Entries()), fixes, lang)
      ensures fresh(set m | m in mappings && m !in old(mappings))
      ensures |old(mappings)| <= |mappings| && forall k :: 0 <= k < |old(mappings)| ==> mappings[k] == old(mappings)[k]
    {
      ghost var before := Entries();
      var found := GetMapping(lang.code);
      if found.Ok? {
        var m := found.value;
        ghost var k := GetIndex(before, fixes, lang.code).value;
        assert m == mappings[k] && m.Value() == before[k];
        m.SetServer(Some(lang.code), Some(lang.name), Some(lang.percentage), Some(lang.updated));
        assert m.Value() == WithServer(before[k], Some(lang.code), Some(lang.name), Some(lang.percentage), Some(lang.updated));
        assert Adopt(before, fixes, lang) == before[k := m.Value()];
        assert Entries() == before[k := m.Value()] by {
          forall t | 0 <= t < |mappings| ensures Entries()[t] == before[k := m.Value()][t] {
            if t != k {
              assert mappings[t] != m;
            }
          }
        }
      } else {
        assert Adopt(before, fixes, lang) == before + [ServerOnly(lang.code, lang.name)];
        var m := new Mapping.CreateServer(lang.code, lang.name);
        AddMapping(m);
      }
    }

    /** One turn of the first loop of `from_project_name`: a new local-only mapping is appended. */
    method AddLocal(dir: string)
      requires Valid()
      modifies this
      ensures Valid() && Entries() == old(Entries()) + [LocalOnly(dir)]
      ensures fresh(set m | m in mappings && m !in old(mappings))
      ensures |old(mappings)| <= |mappings| && forall k :: 0 <= k < |old(mappings)| ==> mappings[k] == old(mappings)[k]
    {
      var m := new Mapping.CreateLocal(dir);
      AddMapping(m);
    }

    /** The first loop of `from_project_name`: a new local-only mapping per directory, in listing order. */
    method AddLocals(dirs: seq<string>)
      requires Valid()
      modifies this
      ensures Valid() && Entries() == old(Entries()) + LocalEntries(dirs)
      ensures fresh(set m | m in mappings && m !in old(mappings))
      ensures |old(mappings)| <= |mappings| && forall k :: 0 <= k < |old(mappings)| ==> mappings[k] == old(mappings)[k]
    {
      ghost var start := Entries();
      var i := 0;
      while i < |dirs|
        invariant 0 <= i <= |dirs|
        invariant Valid() && Entries() == start + LocalEntries(dirs[..i])
        invariant fresh(set m | m in mappings && m !in old(mappings))
        invariant |old(mappings)| <= |mappings| && forall k :: 0 <= k < |old(mappings)| ==> mappings[k] == old(mappings)[k]
      {
        LocalEntriesStep(dirs, i);
        AddLocal(dirs[i]);
        i := i + 1;
      }
      assert dirs[..i] == dirs;
    }

    /** The second loop of `from_project_name`: each server language in listing order is adopted. */
    method ReconcileAll(langs: seq<ServerLanguage>)
      requires Valid()
      modifies this, mappings
      ensures Valid() && Entries() == Reconcile(old(Entries()), fixes, langs)
      ensures fresh(set m | m in mappings && m !in old(mappings))
      ensures |old(mappings)| <= |mappings| && forall k :: 0 <= k < |old(mappings)| ==> mappings[k] == old(mappings)[k]
    {
      ghost var start := Entries();
      var j := 0;
      while j < |langs|
        invariant 0 <= j <= |langs|
        invariant Valid() && Entries() == Reconcile(start, fixes, langs[..j])
        invariant fresh(set m | m in mappings && m !in old(mappings))
        invariant |old(mappings)| <= |mappings| && forall k :: 0 <= k < |old(mappings)| ==> mappings[k] == old(mappings)[k]
      {
        ReconcileStep(start, fixes, langs, j);
        ghost var pre := mappings;
        AdoptLanguage(langs[j]);
        assert forall k :: 0 <= k < |old(mappings)| ==> mappings[k] == pre[k];
        j := j + 1;
      }
      assert langs[..j] == langs;
    }

    /**
     * `Mappings.from_project_name`: `KeyError` for an unknown project;
     * otherwise a new collection of new mappings, one per local directory,
     * then reconciled with the server's language list.
     */
    static method FromProjectName(projects: seq<Project>, projectName: string, dirs: seq<string>,
                                  langs: seq<ServerLanguage>, fixes: seq<Fix>)
      returns (r: Result<Mappings>)
      ensures r.Err? <==> ProjectNameToId(projects, projectName).None?
      ensures r.Err? ==> r.error == KeyError
      ensures r.Ok? ==>
        && fresh(r.value) && r.value.Valid()
        && r.value.projectName == projectName && r.value.fixes == fixes
        && Some(r.value.projectId) == ProjectNameToId(projects, projectName)
        && r.value.Entries() == Reconcile(LocalEntries(dirs), fixes, langs)
    {
      var id := ProjectNameToId(projects, projectName);
      if id.None? {
        return Err(KeyError);
      }
      var ms := new Mappings(projectName, id.value, fixes);
      assert ms.Entries() == [];
      ms.AddLocals(dirs);
      assert ms.Entries() == [] + LocalEntries(dirs) == LocalEntries(dirs);
      assert fresh(set m | m in ms.mappings);
      ms.ReconcileAll(langs);
      return Ok(ms);
    }
  }
}
