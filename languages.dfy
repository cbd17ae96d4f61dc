/**
 * The language mappings as values: what one `Mapping` holds, how it is
 * matched against a code, how the collection is searched, selected and
 * sorted, and what each per-language operation does to a mapping.
 */
module Languages {
  import opened Wrappers
  import opened Strings
  import opened Codes
  import opened Sorting

  /** The five fields of one `Mapping`. */
  datatype Entry = Entry(
    local: Option<string>,     // local directory name
    server: Option<string>,    // server language code
    name: Option<string>,      // display name on the server
    progress: Option<int>,     // completion percentage on the server
    updated: Option<int>)      // last update on the server, seconds since the epoch
  {
    /**
     * `Mapping.matches_code`: the local code equals `code` with `-` read as
     * `_`, or the server code equals `code` with `_` read as `-`, both
     * ignoring case.  An empty code counts as absent.
     */
    predicate MatchesCode(code: string) {
      || (Present(local) && Lower(local.value) == Lower(Replace(code, '-', '_')))
      || (Present(server) && Lower(server.value) == Lower(Replace(code, '_', '-')))
    }
  }

  /** `Mapping.create_local`. */
  function LocalOnly(local: string): Entry {
    Entry(Some(local), None, None, None, None)
  }

  /** `Mapping.create_server`: no progress and no update time. */
  function ServerOnly(server: string, name: string): Entry {
    Entry(None, Some(server), Some(name), None, None)
  }

  /** A code with case and the `-`/`_` distinction removed. */
  function Folded(code: string): string {
    Lower(Replace(code, '-', '_'))
  }

  // ---------------------------------------------------------------------
  // Matching

  lemma FoldedAt(s: string, a: char, b: char, i: nat)
    requires i < |s|
    ensures |Lower(Replace(s, a, b))| == |s|
    ensures Lower(Replace(s, a, b))[i] == LowerChar(if s[i] == a then b else s[i])
  {
    assert Replace(s, a, b)[i] == SwapFn(a, b)(s[i]);
    assert Lower(Replace(s, a, b))[i] == LowerChar(Replace(s, a, b)[i]);
  }

  lemma LowerAt(s: string, i: nat)
    requires i < |s|
    ensures |Lower(s)| == |s| && Lower(s)[i] == LowerChar(s[i])
  {
  }

  /** The local side: the local code matches exactly the codes with the same folded form, unless it holds a `-`. */
  lemma LocalSideFolds(local: string, code: string)
    ensures Lower(local) == Lower(Replace(code, '-', '_')) <==> '-' !in local && Folded(local) == Folded(code)
  {
    if '-' !in local {
      ReplaceAbsent(local, '-', '_');
    } else {
      var i :| 0 <= i < |local| && local[i] == '-';
      LowerAt(local, i);
      if |code| == |local| {
        FoldedAt(code, '-', '_', i);
      }
    }
  }

  /** The server side: the server code matches exactly the codes with the same folded form, unless it holds a `_`. */
  lemma ServerSideFolds(server: string, code: string)
    ensures Lower(server) == Lower(Replace(code, '_', '-')) <==> '_' !in server && Folded(server) == Folded(code)
  {
    var lhs, rhs := Lower(server), Lower(Replace(code, '_', '-'));
    if '_' in server {
      var i :| 0 <= i < |server| && server[i] == '_';
      LowerAt(server, i);
      if |code| == |server| {
        FoldedAt(code, '_', '-', i);
      }
      assert lhs != rhs by {
        if |lhs| == |rhs| { assert lhs[i] == '_' != rhs[i]; }
      }
    } else if |server| == |code| {
      forall i | 0 <= i < |server|
        ensures lhs[i] == rhs[i] <==> Folded(server)[i] == Folded(code)[i]
      {
        LowerAt(server, i);
        FoldedAt(code, '_', '-', i);
        FoldedAt(server, '-', '_', i);
        FoldedAt(code, '-', '_', i);
      }
      assert lhs == rhs <==> Folded(server) == Folded(code) by {
        if lhs == rhs {
          assert forall i :: 0 <= i < |server| ==> Folded(server)[i] == Folded(code)[i];
        }
        if Folded(server) == Folded(code) {
          assert forall i :: 0 <= i < |server| ==> lhs[i] == rhs[i];
        }
      }
    }
  }

  /**
   * `matches_code` is equality of folded codes, against the local code
   * when it is set and holds no `-`, or against the server code when it
   * is set and holds no `_`.
   */
  lemma MatchesCodeIsFoldedEquality(e: Entry, code: string)
    ensures e.MatchesCode(code) <==>
      || (Present(e.local) && '-' !in e.local.value && Folded(e.local.value) == Folded(code))
      || (Present(e.server) && '_' !in e.server.value && Folded(e.server.value) == Folded(code))
  {
    if Present(e.local) { LocalSideFolds(e.local.value, code); }
    if Present(e.server) { ServerSideFolds(e.server.value, code); }
  }

  /** Matching ignores case and the `-`/`_` distinction of the code looked up. */
  lemma MatchesCodeIgnoresCaseAndSeparator(e: Entry, code: string, other: string)
    requires Folded(code) == Folded(other)
    ensures e.MatchesCode(code) <==> e.MatchesCode(other)
  {
    MatchesCodeIsFoldedEquality(e, code);
    MatchesCodeIsFoldedEquality(e, other);
  }

  /** A mapping with neither code set matches no code. */
  lemma CodelessMatchesNothing(e: Entry, code: string)
    requires !Present(e.local) && !Present(e.server)
    ensures !e.MatchesCode(code)
  {
  }

  /** The documented example: a mapping with local code `pt_BR` matches `pt-br`, `PT_BR` and `pt_br`. */
  lemma MatchesCodeExample(e: Entry)
    requires e.local == Some("pt_BR")
    ensures e.MatchesCode("pt-br") && e.MatchesCode("PT_BR") && e.MatchesCode("pt_br")
  {
    assert Lower("pt_BR") == [LowerChar('p'), LowerChar('t'), LowerChar('_'), LowerChar('B'), LowerChar('R')];
    assert Replace("pt-br", '-', '_') == "pt_br";
    assert Lower("pt_br") == [LowerChar('p'), LowerChar('t'), LowerChar('_'), LowerChar('b'), LowerChar('r')];
    ReplaceAbsent("PT_BR", '-', '_');
    assert Lower("PT_BR") == [LowerChar('P'), LowerChar('T'), LowerChar('_'), LowerChar('B'), LowerChar('R')];
    ReplaceAbsent("pt_br", '-', '_');
  }

  // ---------------------------------------------------------------------
  // Lookup

  /** `find_mapping` inside `get_mapping`: the first mapping, in insertion order, matching `code`. */
  function FindIndex(es: seq<Entry>, code: string): (r: Option<nat>)
    ensures r.Some? ==> r.value < |es| && es[r.value].MatchesCode(code)
    ensures r.Some? ==> forall j :: 0 <= j < r.value ==> !es[j].MatchesCode(code)
    ensures r.None? <==> forall j :: 0 <= j < |es| ==> !es[j].MatchesCode(code)
  {
    if es == [] then None
    else if es[0].MatchesCode(code) then Some(0)
    else match FindIndex(es[1..], code)
      case None => None
      case Some(i) => Some(i + 1)
  }

  /** A fix is hit by a lower-cased code when either side, lower-cased, equals it. */
  predicate FixHit(f: Fix, lowered: string) {
    Lower(f.local) == lowered || Lower(f.server) == lowered
  }

  /** A fix the fallback of `get_mapping` can use: it is hit, and some mapping matches its local side. */
  predicate Usable(es: seq<Entry>, f: Fix, lowered: string) {
    FixHit(f, lowered) && FindIndex(es, f.local).Some?
  }

  /** The first usable fix, in table order. */
  function FallbackFix(es: seq<Entry>, fixes: seq<Fix>, lowered: string): (r: Option<nat>)
    ensures r.Some? ==> r.value < |fixes| && Usable(es, fixes[r.value], lowered)
    ensures r.Some? ==> forall j :: 0 <= j < r.value ==> !Usable(es, fixes[j], lowered)
    ensures r.None? <==> forall j :: 0 <= j < |fixes| ==> !Usable(es, fixes[j], lowered)
  {
    if fixes == [] then None
    else if Usable(es, fixes[0], lowered) then Some(0)
    else
      var rest := FallbackFix(es, fixes[1..], lowered);
      assert forall j :: 1 <= j < |fixes| ==> fixes[j] == fixes[1..][j - 1];
      if rest.None? then None else Some(rest.value + 1)
  }

  lemma FallbackFixAt(es: seq<Entry>, fixes: seq<Fix>, lowered: string, k: nat)
    requires k < |fixes| && Usable(es, fixes[k], lowered)
    requires forall j :: 0 <= j < k ==> !Usable(es, fixes[j], lowered)
    ensures FallbackFix(es, fixes, lowered) == Some(k)
  {
  }

  /**
   * `Mappings.get_mapping`: the first mapping matching `code`; failing
   * that, for the first usable fix, the first mapping matching its local
   * side; `None` is the `KeyError`.
   */
  function GetIndex(es: seq<Entry>, fixes: seq<Fix>, code: string): (r: Option<nat>)
    ensures r.Some? ==> r.value < |es|
    ensures r.Some? ==>
      || es[r.value].MatchesCode(code)
      || exists k :: 0 <= k < |fixes| && FixHit(fixes[k], Lower(code)) && es[r.value].MatchesCode(fixes[k].local)
  {
    match FindIndex(es, code)
    case Some(i) => Some(i)
    case None =>
      match FallbackFix(es, fixes, Lower(code))
      case None => None
      case Some(k) => FindIndex(es, fixes[k].local)
  }

  /** What `get_mapping` finds, stated without reference to its steps. */
  lemma GetIndexResult(es: seq<Entry>, fixes: seq<Fix>, code: string)
    ensures forall i ::
      (0 <= i < |es| && es[i].MatchesCode(code) && forall j :: 0 <= j < i ==> !es[j].MatchesCode(code))
      ==> GetIndex(es, fixes, code) == Some(i)
    ensures forall i, k ::
      (&& (forall j :: 0 <= j < |es| ==> !es[j].MatchesCode(code))
       && 0 <= k < |fixes| && FixHit(fixes[k], Lower(code))
       && (forall j :: 0 <= j < k ==> !Usable(es, fixes[j], Lower(code)))
       && 0 <= i < |es| && es[i].MatchesCode(fixes[k].local)
       && (forall j :: 0 <= j < i ==> !es[j].MatchesCode(fixes[k].local)))
      ==> GetIndex(es, fixes, code) == Some(i)
    ensures GetIndex(es, fixes, code).None? <==>
      && (forall j :: 0 <= j < |es| ==> !es[j].MatchesCode(code))
      && (forall k, j :: 0 <= k < |fixes| && FixHit(fixes[k], Lower(code)) && 0 <= j < |es| ==> !es[j].MatchesCode(fixes[k].local))
  {
    forall i | 0 <= i < |es| && es[i].MatchesCode(code) && forall j :: 0 <= j < i ==> !es[j].MatchesCode(code)
      ensures GetIndex(es, fixes, code) == Some(i)
    {
      GetIndexDirect(es, fixes, code, i);
    }
    forall i, k |
      && (forall j :: 0 <= j < |es| ==> !es[j].MatchesCode(code))
      && 0 <= k < |fixes| && FixHit(fixes[k], Lower(code))
      && (forall j :: 0 <= j < k ==> !Usable(es, fixes[j], Lower(code)))
      && 0 <= i < |es| && es[i].MatchesCode(fixes[k].local)
      && (forall j :: 0 <= j < i ==> !es[j].MatchesCode(fixes[k].local))
      ensures GetIndex(es, fixes, code) == Some(i)
    {
      GetIndexThroughFix(es, fixes, code, i, k);
    }
    GetIndexNone(es, fixes, code);
  }

  lemma GetIndexDirect(es: seq<Entry>, fixes: seq<Fix>, code: string, i: nat)
    requires i < |es| && es[i].MatchesCode(code) && forall j :: 0 <= j < i ==> !es[j].MatchesCode(code)
    ensures GetIndex(es, fixes, code) == Some(i)
  {
    assert FindIndex(es, code) == Some(i);
  }

  lemma GetIndexThroughFix(es: seq<Entry>, fixes: seq<Fix>, code: string, i: nat, k: nat)
    requires forall j :: 0 <= j < |es| ==> !es[j].MatchesCode(code)
    requires k < |fixes| && FixHit(fixes[k], Lower(code))
    requires forall j :: 0 <= j < k ==> !Usable(es, fixes[j], Lower(code))
    requires i < |es| && es[i].MatchesCode(fixes[k].local)
    requires forall j :: 0 <= j < i ==> !es[j].MatchesCode(fixes[k].local)
    ensures GetIndex(es, fixes, code) == Some(i)
  {
    assert FindIndex(es, code).None?;
    assert FindIndex(es, fixes[k].local) == Some(i);
    FallbackFixAt(es, fixes, Lower(code), k);
  }

  lemma GetIndexNone(es: seq<Entry>, fixes: seq<Fix>, code: string)
    ensures GetIndex(es, fixes, code).None? <==>
      && (forall j :: 0 <= j < |es| ==> !es[j].MatchesCode(code))
      && (forall k, j :: 0 <= k < |fixes| && FixHit(fixes[k], Lower(code)) && 0 <= j < |es| ==> !es[j].MatchesCode(fixes[k].local))
  {
    forall k | 0 <= k < |fixes| && FixHit(fixes[k], Lower(code)) && FindIndex(es, fixes[k].local).None?
      ensures forall j :: 0 <= j < |es| ==> !es[j].MatchesCode(fixes[k].local)
    {
    }
  }

  // ---------------------------------------------------------------------
  // Selection and order of `iter`

  /** A mapping passes the language filter when some filter code matches it. */
  predicate Wanted(e: Entry, filter: seq<string>) {
    exists j :: 0 <= j < |filter| && e.MatchesCode(filter[j])
  }

  /** The filtering loop of `iter`, run over the first `n` mappings. */
  function SelectUpTo(es: seq<Entry>, filter: seq<string>, n: nat): (r: seq<nat>)
    requires n <= |es|
    ensures InRange(n, r)
  {
    if n == 0 then []
    else SelectUpTo(es, filter, n - 1) + (if Wanted(es[n - 1], filter) then [n - 1] else [])
  }

  /** The mappings `iter` keeps: all of them without a filter, else those some filter code matches. */
  function Selection(es: seq<Entry>, filter: seq<string>): (r: seq<nat>)
    ensures InRange(|es|, r)
  {
    if filter == [] then Range(|es|) else SelectUpTo(es, filter, |es|)
  }

  /** The sort column `iter` uses: the first of `l`, `s`, `n`, `p`, `t` present in the sort specification. */
  function SortColumn(specs: string): Option<char> {
    if 'l' in specs then Some('l')
    else if 's' in specs then Some('s')
    else if 'n' in specs then Some('n')
    else if 'p' in specs then Some('p')
    else if 't' in specs then Some('t')
    else None
  }

  function TextOr(o: Option<string>): Key {
    Text(if o.Some? then o.value else "")
  }

  function NumberOr(o: Option<int>): Key {
    Number(if o.Some? then o.value else 0)
  }

  /** The sort key of one mapping; an absent value sorts as `""`, `0.0` or the epoch. */
  function SortKey(e: Entry, column: char): Key {
    if column == 'l' then TextOr(e.local)
    else if column == 's' then TextOr(e.server)
    else if column == 'n' then TextOr(e.name)
    else if column == 'p' then NumberOr(e.progress)
    else NumberOr(e.updated)
  }

  function Keys(es: seq<Entry>, column: char): (keys: seq<Key>)
    ensures |keys| == |es|
  {
    seq(|es|, i requires 0 <= i < |es| => SortKey(es[i], column))
  }

  /** `result.sort(key=...)` applied to the selected mappings. */
  function SortSelected(es: seq<Entry>, selected: seq<nat>, column: char): (r: seq<nat>)
    requires InRange(|es|, selected)
    ensures InRange(|es|, r)
  {
    var perm := StableSort(Keys(Pick(es, selected), column), Range(|selected|));
    Pick(selected, perm)
  }

  /**
   * `Mappings.iter`: the positions of the mappings it returns, in the
   * order it returns them.
   */
  function Order(es: seq<Entry>, filter: seq<string>, specs: string): (r: seq<nat>)
    ensures InRange(|es|, r)
  {
    var selected := Selection(es, filter);
    var sorted := match SortColumn(specs)
      case None => selected
      case Some(c) => SortSelected(es, selected, c);
    if 'r' in specs then Reversed(sorted) else sorted
  }

  predicate Increasing(s: seq<nat>) {
    forall i, j :: 0 <= i < j < |s| ==> s[i] < s[j]
  }

  lemma {:induction false} SelectUpToMembers(es: seq<Entry>, filter: seq<string>, n: nat)
    requires n <= |es|
    ensures Increasing(SelectUpTo(es, filter, n))
    ensures forall i: nat :: i in SelectUpTo(es, filter, n) <==> i < n && Wanted(es[i], filter)
  {
    if n > 0 {
      SelectUpToMembers(es, filter, n - 1);
    }
  }

  /**
   * Without a filter `iter` keeps every mapping; with one, exactly the
   * mappings some filter code matches, each once, in insertion order.
   */
  lemma SelectionMembers(es: seq<Entry>, filter: seq<string>)
    ensures Increasing(Selection(es, filter))
    ensures forall i: nat :: i in Selection(es, filter) <==> i < |es| && (filter == [] || Wanted(es[i], filter))
  {
    if filter == [] {
      RangeMembers(|es|);
    } else {
      SelectUpToMembers(es, filter, |es|);
    }
  }

  /** Without a filter, a sort column or `r`, `iter` returns every mapping in insertion order. */
  lemma OrderDefault(es: seq<Entry>, specs: string)
    requires SortColumn(specs).None? && 'r' !in specs
    ensures Order(es, [], specs) == Range(|es|)
  {
  }

  lemma SortSelectedRearranges(es: seq<Entry>, selected: seq<nat>, column: char)
    requires InRange(|es|, selected) && Increasing(selected)
    ensures var r := SortSelected(es, selected, column);
      && |r| == |selected| && Distinct(r)
      && (forall i :: i in r <==> i in selected)
  {
    var keys := Keys(Pick(es, selected), column);
    var perm := StableSort(keys, Range(|selected|));
    StableSortOrders(keys, Range(|selected|));
    RangeMembers(|selected|);
    PickMembers(selected, perm);
    PickDistinct(selected, perm);
  }

  /**
   * `iter` returns a rearrangement of a sub-list of the collection: no
   * mapping twice, and exactly those the filter keeps.
   */
  lemma OrderRearrangesSelection(es: seq<Entry>, filter: seq<string>, specs: string)
    ensures var r := Order(es, filter, specs);
      && |r| == |Selection(es, filter)| && Distinct(r)
      && (forall i :: i in r <==> i in Selection(es, filter))
  {
    var selected := Selection(es, filter);
    SelectionMembers(es, filter);
    var sorted := match SortColumn(specs)
      case None => selected
      case Some(c) => SortSelected(es, selected, c);
    if SortColumn(specs).Some? {
      SortSelectedRearranges(es, selected, SortColumn(specs).value);
    }
    ReversedRearranges(sorted);
  }

  /** The positions `r` go by ascending key in `column`, equal keys in insertion order. */
  predicate Ascending(es: seq<Entry>, r: seq<nat>, column: char)
    requires InRange(|es|, r)
  {
    forall i, j :: 0 <= i < j < |r| ==>
      var a, b := SortKey(es[r[i]], column), SortKey(es[r[j]], column);
      !KeyLess(b, a) && (a == b ==> r[i] < r[j])
  }

  /** The positions `r` go by descending key in `column`, equal keys in reverse insertion order. */
  predicate Descending(es: seq<Entry>, r: seq<nat>, column: char)
    requires InRange(|es|, r)
  {
    forall i, j :: 0 <= i < j < |r| ==>
      var a, b := SortKey(es[r[i]], column), SortKey(es[r[j]], column);
      !KeyLess(a, b) && (a == b ==> r[j] < r[i])
  }

  lemma SortSelectedSorted(es: seq<Entry>, selected: seq<nat>, column: char)
    requires InRange(|es|, selected) && Increasing(selected)
    ensures Ascending(es, SortSelected(es, selected, column), column)
  {
    var keys := Keys(Pick(es, selected), column);
    var perm := StableSort(keys, Range(|selected|));
    StableSortOrders(keys, Range(|selected|));
    var r := Pick(selected, perm);
    forall i, j | 0 <= i < j < |r|
      ensures var a, b := SortKey(es[r[i]], column), SortKey(es[r[j]], column);
        !KeyLess(b, a) && (a == b ==> r[i] < r[j])
    {
      assert keys[perm[i]] == SortKey(es[r[i]], column);
      assert keys[perm[j]] == SortKey(es[r[j]], column);
    }
  }

  /** Turning an ascending list round makes it descending. */
  lemma ReversedDescending(es: seq<Entry>, s: seq<nat>, column: char)
    requires InRange(|es|, s) && Ascending(es, s, column)
    ensures InRange(|es|, Reversed(s)) && Descending(es, Reversed(s), column)
  {
    var r := Reversed(s);
    forall i, j | 0 <= i < j < |r|
      ensures var a, b := SortKey(es[r[i]], column), SortKey(es[r[j]], column);
        !KeyLess(a, b) && (a == b ==> r[j] < r[i])
    {
      assert r[i] == s[|s| - 1 - i] && r[j] == s[|s| - 1 - j];
    }
  }

  /**
   * With a sort column, `iter` orders by ascending key, mappings with equal
   * keys in insertion order; `r` turns the whole list round.
   */
  lemma OrderSorted(es: seq<Entry>, filter: seq<string>, specs: string, column: char)
    requires SortColumn(specs) == Some(column)
    ensures 'r' !in specs ==> Ascending(es, Order(es, filter, specs), column)
    ensures 'r' in specs ==> Descending(es, Order(es, filter, specs), column)
  {
    var selected := Selection(es, filter);
    SelectionMembers(es, filter);
    SortSelectedSorted(es, selected, column);
    if 'r' in specs {
      ReversedDescending(es, SortSelected(es, selected, column), column);
    }
  }

  /** The part of `OrderRearrangesSelection` the bulk loops rely on: no mapping is visited twice. */
  lemma OrderDistinct(es: seq<Entry>, filter: seq<string>, specs: string)
    ensures Distinct(Order(es, filter, specs))
  {
    OrderRearrangesSelection(es, filter, specs);
  }
}
