/**
 * Language codes on the two sides: local directory names such as `pt_BR`
 * and server codes such as `pt-br`.  The fixes table lists exceptions,
 * consulted in table order before the default naming rule.
 */
module Codes {
  import opened Wrappers
  import opened Strings

  /** One entry of the fixes table: a local directory name and the server code it stands for. */
  datatype Fix = Fix(local: string, server: string)

  /** Python truthiness of an optional string: set and not empty. */
  predicate Present(o: Option<string>) {
    o.Some? && o.value != ""
  }

  /** A fix names `code` when either of its sides equals it exactly. */
  predicate Names(f: Fix, code: string) {
    f.local == code || f.server == code
  }

  /** The position of the first fix, in table order, that names `code`. */
  function FirstFix(fixes: seq<Fix>, code: string): (r: Option<nat>)
    ensures r.Some? ==> r.value < |fixes| && Names(fixes[r.value], code)
    ensures r.Some? ==> forall j :: 0 <= j < r.value ==> !Names(fixes[j], code)
    ensures r.None? <==> forall j :: 0 <= j < |fixes| ==> !Names(fixes[j], code)
  {
    if fixes == [] then None
    else if Names(fixes[0], code) then Some(0)
    else match FirstFix(fixes[1..], code)
      case None => None
      case Some(k) => Some(k + 1)
  }

  /** The default rule from local to server: `_` becomes `-`, then lower case. */
  function DefaultServerCode(local: string): string {
    Lower(Replace(local, '_', '-'))
  }

  /**
   * The default rule from server to local: split on `-`, keep the first
   * piece, upper-case the others, join with `_`.
   */
  function DefaultLocalCode(server: string): string {
    var parts := Split(server, '-');
    Join([parts[0]] + MapEach(parts[1..], UpperChar), '_')
  }

  /** `Mapping._local_to_server`: the first fix naming the local code, else the default rule. */
  function LocalToServer(fixes: seq<Fix>, local: string): string {
    match FirstFix(fixes, local)
    case Some(k) => fixes[k].server
    case None => DefaultServerCode(local)
  }

  /** `Mapping._server_to_local`: the first fix naming the server code, else the default rule. */
  function ServerToLocal(fixes: seq<Fix>, server: string): string {
    match FirstFix(fixes, server)
    case Some(k) => fixes[k].local
    case None => DefaultLocalCode(server)
  }

  /** A local code in the shape the default rules expect: `pt_BR`, `en`, `zh_HANS`. */
  predicate LocalShaped(local: string) {
    var segments := Split(local, '_');
    && '-' !in local
    && Lower(segments[0]) == segments[0]
    && forall k :: 1 <= k < |segments| ==> Upper(segments[k]) == segments[k]
  }

  /** A server code in the shape the default rules expect: `pt-br`, `en`. */
  predicate ServerShaped(server: string) {
    '_' !in server && Lower(server) == server
  }

  /** No code of the table occurs in two different entries. */
  predicate UnambiguousFixes(fixes: seq<Fix>) {
    forall i, j :: 0 <= i < |fixes| && 0 <= j < |fixes| && i != j ==>
      !Names(fixes[j], fixes[i].local) && !Names(fixes[j], fixes[i].server)
  }

  // ---------------------------------------------------------------------
  // What the transforms return

  lemma LowerIdempotent(s: string)
    ensures Lower(Lower(s)) == Lower(s)
  {
    forall i | 0 <= i < |s| ensures Lower(Lower(s))[i] == Lower(s)[i] {
      assert Lower(s)[i] == LowerChar(s[i]) && Lower(Lower(s))[i] == LowerChar(Lower(s)[i]);
    }
  }

  /**
   * `_local_to_server` returns the server side of the first fix naming the
   * local code; without one, a lower-case code without `_`.
   */
  lemma LocalToServerResult(fixes: seq<Fix>, local: string)
    ensures forall k ::
              (0 <= k < |fixes| && Names(fixes[k], local) && forall j :: 0 <= j < k ==> !Names(fixes[j], local))
              ==> LocalToServer(fixes, local) == fixes[k].server
    ensures (forall k :: 0 <= k < |fixes| ==> !Names(fixes[k], local)) ==>
              var r := LocalToServer(fixes, local);
              r == DefaultServerCode(local) && '_' !in r && Lower(r) == r
  {
    var replaced := Replace(local, '_', '-');
    ReplaceRemoves(local, '_', '-');
    CaseKeepsNonLetter(replaced, '_');
    LowerIdempotent(replaced);
  }

  /**
   * `_server_to_local` returns the local side of the first fix naming the
   * server code; without one, a code without `-` that starts with the
   * first `-`-piece of the server code.
   */
  lemma ServerToLocalResult(fixes: seq<Fix>, server: string)
    ensures forall k ::
              (0 <= k < |fixes| && Names(fixes[k], server) && forall j :: 0 <= j < k ==> !Names(fixes[j], server))
              ==> ServerToLocal(fixes, server) == fixes[k].local
    ensures (forall k :: 0 <= k < |fixes| ==> !Names(fixes[k], server)) ==>
              var r := ServerToLocal(fixes, server);
              var first := Split(server, '-')[0];
              r == DefaultLocalCode(server) && '-' !in r && |first| <= |r| && r[..|first|] == first
  {
    var parts := Split(server, '-');
    var pieces := [parts[0]] + MapEach(parts[1..], UpperChar);
    forall k | 0 <= k < |pieces| ensures '-' !in pieces[k] {
      if k > 0 {
        CaseKeepsNonLetter(parts[k], '-');
        assert pieces[k] == Upper(parts[k]);
      }
    }
    JoinHasNoChar(pieces, '_', '-');
    JoinStartsWithFirst(pieces, '_');
  }

  lemma {:induction false} JoinHasNoChar(parts: seq<string>, sep: char, c: char)
    requires c != sep
    requires forall k :: 0 <= k < |parts| ==> c !in parts[k]
    ensures c !in Join(parts, sep)
  {
    if |parts| > 1 {
      JoinHasNoChar(parts[1..], sep, c);
    }
  }

  lemma JoinStartsWithFirst(parts: seq<string>, sep: char)
    requires |parts| >= 1
    ensures |parts[0]| <= |Join(parts, sep)| && Join(parts, sep)[..|parts[0]|] == parts[0]
  {
    if |parts| > 1 {
      assert Join(parts, sep) == parts[0] + ([sep] + Join(parts[1..], sep));
    }
  }

  /** The documented example: `pt_BR` and `pt-br` correspond under the default rules. */
  lemma DefaultRulesExample()
    ensures DefaultServerCode("pt_BR") == "pt-br"
    ensures DefaultLocalCode("pt-br") == "pt_BR"
  {
    ServerCodeExample();
    LocalCodeExample();
  }

  lemma ServerCodeExample()
    ensures DefaultServerCode("pt_BR") == "pt-br"
  {
    assert Replace("pt_BR", '_', '-') == "pt-BR";
    assert Lower("pt-BR") == [LowerChar('p'), LowerChar('t'), LowerChar('-'), LowerChar('B'), LowerChar('R')];
  }

  lemma LocalCodeExample()
    ensures DefaultLocalCode("pt-br") == "pt_BR"
  {
    SplitAtSeparator("pt", "br", '-');
    SplitWithoutSeparator("br", '-');
    assert "pt" + ['-'] + "br" == "pt-br";
    assert Split("pt-br", '-') == ["pt", "br"];
    assert MapChars("br", UpperChar) == [UpperChar('b'), UpperChar('r')];
    assert MapEach(["br"], UpperChar) == ["BR"];
    assert Join(["pt", "BR"], '_') == "pt" + ['_'] + "BR";
  }

  // ---------------------------------------------------------------------
  // Round trips

  /** A map that only touches `a` is the identity on a string without `a`. */
  lemma MapEachFixes(parts: seq<string>, a: char, b: char)
    requires forall k :: 0 <= k < |parts| ==> a !in parts[k]
    ensures MapEach(parts, SwapFn(a, b)) == parts
  {
    forall k | 0 <= k < |parts| ensures MapEach(parts, SwapFn(a, b))[k] == parts[k] {
      ReplaceAbsent(parts[k], a, b);
    }
  }

  /**
   * Local to server to local gives the local code back when no fix names
   * either code and the code has the shape `pt_BR`.
   */
  lemma LocalRoundTrip(fixes: seq<Fix>, local: string)
    requires LocalShaped(local)
    requires forall k :: 0 <= k < |fixes| ==> !Names(fixes[k], local) && !Names(fixes[k], DefaultServerCode(local))
    ensures ServerToLocal(fixes, LocalToServer(fixes, local)) == local
  {
    var segs := Split(local, '_');
    var lowered := MapEach(segs, LowerChar);
    DefaultServerCodeSplits(local);
    // upper() undoes lower() on the later segments
    var pieces := [lowered[0]] + MapEach(lowered[1..], UpperChar);
    forall k | 0 <= k < |segs| ensures pieces[k] == segs[k] {
      if k == 0 {
        assert pieces[0] == Lower(segs[0]);
      } else {
        assert lowered[1..][k - 1] == lowered[k] == Lower(segs[k]);
        assert pieces[k] == MapEach(lowered[1..], UpperChar)[k - 1] == Upper(lowered[k]);
        UpperOfLower(segs[k]);
      }
    }
    assert pieces == segs;
  }

  /** The default server code of a local code, split on `-`, is its `_`-segments lower-cased. */
  lemma DefaultServerCodeSplits(local: string)
    requires '-' !in local
    ensures Split(DefaultServerCode(local), '-') == MapEach(Split(local, '_'), LowerChar)
  {
    var segs := Split(local, '_');
    // replace('_', '-') turns the `_`-join into a `-`-join
    MapJoin(segs, '_', SwapFn('_', '-'));
    MapEachFixes(segs, '_', '-');
    assert Replace(local, '_', '-') == Join(segs, '-');
    // lower() applies to each segment
    MapJoin(segs, '-', LowerChar);
    var lowered := MapEach(segs, LowerChar);
    assert DefaultServerCode(local) == Join(lowered, '-');
    forall k | 0 <= k < |lowered| ensures '-' !in lowered[k] {
      assert '-' !in segs[k] by {
        if '-' in segs[k] { JoinContainsPart(segs, '_', k, '-'); }
      }
      CaseKeepsNonLetter(segs[k], '-');
      assert lowered[k] == Lower(segs[k]);
    }
    SplitOfJoin(lowered, '-');
  }

  lemma {:induction false} JoinContainsPart(parts: seq<string>, sep: char, k: nat, c: char)
    requires k < |parts| && c in parts[k]
    ensures c in Join(parts, sep)
  {
    if |parts| > 1 {
      assert Join(parts, sep) == parts[0] + [sep] + Join(parts[1..], sep);
      if k > 0 {
        JoinContainsPart(parts[1..], sep, k - 1, c);
      }
    }
  }

  /**
   * Server to local to server gives the server code back when no fix names
   * either code and the code has the shape `pt-br`.
   */
  lemma ServerRoundTrip(fixes: seq<Fix>, server: string)
    requires ServerShaped(server)
    requires forall k :: 0 <= k < |fixes| ==> !Names(fixes[k], server) && !Names(fixes[k], DefaultLocalCode(server))
    ensures LocalToServer(fixes, ServerToLocal(fixes, server)) == server
  {
    var parts := Split(server, '-');
    var pieces := [parts[0]] + MapEach(parts[1..], UpperChar);
    forall k | 0 <= k < |pieces| ensures '_' !in pieces[k] {
      assert '_' !in parts[k] by {
        if '_' in parts[k] { JoinContainsPart(parts, '-', k, '_'); }
      }
      if k > 0 {
        CaseKeepsNonLetter(parts[k], '_');
        assert pieces[k] == Upper(parts[k]);
      }
    }
    MapJoin(pieces, '_', SwapFn('_', '-'));
    MapEachFixes(pieces, '_', '-');
    MapJoin(pieces, '-', LowerChar);
    MapJoin(parts, '-', LowerChar);
    forall k | 0 <= k < |parts| ensures MapEach(pieces, LowerChar)[k] == MapEach(parts, LowerChar)[k] {
      if k > 0 {
        LowerOfUpper(parts[k]);
      }
    }
    assert MapEach(pieces, LowerChar) == MapEach(parts, LowerChar);
  }

  /**
   * Through an unambiguous table, every fix is its own inverse: its local
   * side goes to its server side and back.
   */
  lemma FixRoundTrip(fixes: seq<Fix>, k: nat)
    requires UnambiguousFixes(fixes) && k < |fixes|
    ensures LocalToServer(fixes, fixes[k].local) == fixes[k].server
    ensures ServerToLocal(fixes, fixes[k].server) == fixes[k].local
    ensures ServerToLocal(fixes, LocalToServer(fixes, fixes[k].local)) == fixes[k].local
    ensures LocalToServer(fixes, ServerToLocal(fixes, fixes[k].server)) == fixes[k].server
  {
    assert FirstFix(fixes, fixes[k].local) == Some(k);
    assert FirstFix(fixes, fixes[k].server) == Some(k);
  }
}
