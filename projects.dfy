/** The two free helpers: `project_name_to_id` and `format_fails`. */
module Projects {
  import opened Wrappers
  import opened Strings
  import opened Codes
  import opened Languages

  /** One record of the server's project list. */
  datatype Project = Project(name: string, id: int)

  /**
   * `project_name_to_id`: the id of the first project whose name,
   * lower-cased, equals the requested name; the requested name itself is
   * compared as given.  `None` when there is no such project.
   */
  function ProjectNameToId(projects: seq<Project>, projectName: string): (r: Option<int>)
    ensures r.Some? ==> exists i ::
      && 0 <= i < |projects| && Lower(projects[i].name) == projectName && projects[i].id == r.value
      && forall j :: 0 <= j < i ==> Lower(projects[j].name) != projectName
    ensures r.None? <==> forall i :: 0 <= i < |projects| ==> Lower(projects[i].name) != projectName
  {
    if projects == [] then None
    else if Lower(projects[0].name) == projectName then Some(projects[0].id)
    else
      var r := ProjectNameToId(projects[1..], projectName);
      assert r.Some? ==> forall j :: 0 <= j < 1 ==> Lower(projects[j].name) != projectName;
      r
  }

  /** A requested name with an upper-case letter finds no project: only lower-case names can match. */
  lemma {:induction false} MixedCaseNameFindsNothing(projects: seq<Project>, projectName: string)
    requires Lower(projectName) != projectName
    ensures ProjectNameToId(projects, projectName).None?
  {
    forall i | 0 <= i < |projects| ensures Lower(projects[i].name) != projectName {
      LowerIdempotent(projects[i].name);
    }
  }

  /** The code `format_fails` prints for one failed mapping: the local code if set, else the server code. */
  function FailCode(e: Entry): Option<string> {
    if Present(e.local) then e.local else e.server
  }

  /**
   * `format_fails`: the codes of the failed mappings joined with `,`.  A
   * failed mapping with neither code gives `None` to `join`, which raises
   * `TypeError`.
   */
  function FormatFails(fails: seq<Entry>): (r: Result<string>)
    ensures r.Err? <==> exists i :: 0 <= i < |fails| && FailCode(fails[i]).None?
    ensures r.Err? ==> r.error == TypeError
  {
    if exists i :: 0 <= i < |fails| && FailCode(fails[i]).None? then Err(TypeError)
    else Ok(Join(seq(|fails|, i requires 0 <= i < |fails| => FailCode(fails[i]).value), ','))
  }

  /**
   * Splitting the formatted list on `,` gives back, mapping by mapping,
   * the local code where it is set and the server code otherwise, when no
   * code holds a comma.
   */
  lemma FormatFailsSplits(fails: seq<Entry>)
    requires |fails| >= 1
    requires forall i :: 0 <= i < |fails| ==> FailCode(fails[i]).Some? && ',' !in FailCode(fails[i]).value
    ensures FormatFails(fails).Ok?
    ensures var parts := Split(FormatFails(fails).value, ',');
      && |parts| == |fails|
      && forall i :: 0 <= i < |fails| ==>
        parts[i] == if Present(fails[i].local) then fails[i].local.value else fails[i].server.value
  {
    var codes := seq(|fails|, i requires 0 <= i < |fails| => FailCode(fails[i]).value);
    SplitOfJoin(codes, ',');
  }

  /** With nothing failed the list is empty. */
  lemma FormatNoFails()
    ensures FormatFails([]) == Ok("")
  {
  }
}
