/**
 * The reconciliation loop of `Mappings.from_project_name`: one
 * local-only mapping per local directory, then, server language by
 * server language, either the mapping `get_mapping` finds takes the
 * server's fields or a server-only mapping is appended.
 */
module Reconciliation {
  import opened Wrappers
  import opened Strings
  import opened Codes
  import opened Languages
  import opened Outcomes

  /** One record of the server's project language list. */
  datatype ServerLanguage = ServerLanguage(code: string, name: string, percentage: int, updated: int)

  /** The mappings made from the local directory listing, in listing order. */
  function LocalEntries(dirs: seq<string>): (es: seq<Entry>)
    ensures |es| == |dirs|
  {
    seq(|dirs|, i requires 0 <= i < |dirs| => LocalOnly(dirs[i]))
  }

  lemma LocalEntriesStep(dirs: seq<string>, i: nat)
    requires i < |dirs|
    ensures LocalEntries(dirs[..i + 1]) == LocalEntries(dirs[..i]) + [LocalOnly(dirs[i])]
  {
  }

  /** One turn of the loop over the server languages; the collection grows by one exactly when `get_mapping` raises. */
  function Adopt(es: seq<Entry>, fixes: seq<Fix>, lang: ServerLanguage): (r: seq<Entry>)
    ensures |r| == |es| + (if GetIndex(es, fixes, lang.code).None? then 1 else 0)
  {
    match GetIndex(es, fixes, lang.code)
    case Some(k) =>
      es[k := WithServer(es[k], Some(lang.code), Some(lang.name), Some(lang.percentage), Some(lang.updated))]
    case None =>
      es + [ServerOnly(lang.code, lang.name)]
  }

  /**
   * After one turn the language is recorded on some mapping, no local code
   * has changed, a mapping appended has none, and every mapping but the
   * one `get_mapping` found is as it was.
   */
  lemma AdoptEffect(es: seq<Entry>, fixes: seq<Fix>, lang: ServerLanguage)
    ensures var r := Adopt(es, fixes, lang);
      && (forall k :: 0 <= k < |es| ==> r[k].local == es[k].local)
      && (forall k :: |es| <= k < |r| ==> r[k].local.None?)
      && (forall k :: 0 <= k < |es| && GetIndex(es, fixes, lang.code) != Some(k) ==> r[k] == es[k])
      && (exists k :: 0 <= k < |r| && r[k].server == Some(lang.code) && r[k].name == Some(lang.name))
  {
    var r := Adopt(es, fixes, lang);
    match GetIndex(es, fixes, lang.code)
    case Some(k) =>
      assert r[k].server == Some(lang.code) && r[k].name == Some(lang.name);
    case None =>
      assert r[|es|].server == Some(lang.code) && r[|es|].name == Some(lang.name);
  }

  /** The loop over the server languages, in listing order. */
  function Reconcile(es: seq<Entry>, fixes: seq<Fix>, langs: seq<ServerLanguage>): (r: seq<Entry>)
    ensures |es| <= |r| <= |es| + |langs|
    decreases |langs|
  {
    if langs == [] then es
    else Adopt(Reconcile(es, fixes, langs[..|langs| - 1]), fixes, langs[|langs| - 1])
  }

  lemma ReconcileStep(es: seq<Entry>, fixes: seq<Fix>, langs: seq<ServerLanguage>, j: nat)
    requires j < |langs|
    ensures Reconcile(es, fixes, langs[..j + 1]) == Adopt(Reconcile(es, fixes, langs[..j]), fixes, langs[j])
  {
    assert langs[..j + 1][..j] == langs[..j];
  }

  /** The loop changes no local code, and every mapping it appends is server-only. */
  lemma {:induction false} ReconcileKeepsLocals(es: seq<Entry>, fixes: seq<Fix>, langs: seq<ServerLanguage>)
    ensures var r := Reconcile(es, fixes, langs);
      && (forall k :: 0 <= k < |es| ==> r[k].local == es[k].local)
      && (forall k :: |es| <= k < |r| ==> r[k].local.None?)
    decreases |langs|
  {
    if langs != [] {
      var before := Reconcile(es, fixes, langs[..|langs| - 1]);
      ReconcileKeepsLocals(es, fixes, langs[..|langs| - 1]);
      AdoptEffect(before, fixes, langs[|langs| - 1]);
    }
  }

  /** The positions of the server languages for which `get_mapping` raised when their turn came. */
  function Missed(es: seq<Entry>, fixes: seq<Fix>, langs: seq<ServerLanguage>): (r: seq<nat>)
    decreases |langs|
  {
    if langs == [] then []
    else
      var before := Reconcile(es, fixes, langs[..|langs| - 1]);
      Missed(es, fixes, langs[..|langs| - 1])
        + (if GetIndex(before, fixes, langs[|langs| - 1].code).None? then [|langs| - 1] else [])
  }

  /** The final size: the local directories plus one per server language that found no mapping. */
  lemma {:induction false} ReconcileSize(es: seq<Entry>, fixes: seq<Fix>, langs: seq<ServerLanguage>)
    ensures |Reconcile(es, fixes, langs)| == |es| + |Missed(es, fixes, langs)|
    ensures forall t :: 0 <= t < |Missed(es, fixes, langs)| ==> Missed(es, fixes, langs)[t] < |langs|
    decreases |langs|
  {
    if langs != [] {
      ReconcileSize(es, fixes, langs[..|langs| - 1]);
    }
  }

  /** A mapping the loop appends is server-only and has neither progress nor an update time. */
  lemma AdoptAppendsServerOnly(es: seq<Entry>, fixes: seq<Fix>, lang: ServerLanguage)
    requires GetIndex(es, fixes, lang.code).None?
    ensures var r := Adopt(es, fixes, lang);
      && r[|es|].local.None? && r[|es|].server == Some(lang.code) && r[|es|].name == Some(lang.name)
      && r[|es|].progress.None? && r[|es|].updated.None?
  {
  }

  /** The mapping `get_mapping` finds takes all four server fields, progress and update time included. */
  lemma AdoptUpdatesFound(es: seq<Entry>, fixes: seq<Fix>, lang: ServerLanguage, k: nat)
    requires GetIndex(es, fixes, lang.code) == Some(k)
    ensures var r := Adopt(es, fixes, lang);
      && r[k].server == Some(lang.code) && r[k].name == Some(lang.name)
      && r[k].progress == Some(lang.percentage) && r[k].updated == Some(lang.updated)
  {
  }

  // ---------------------------------------------------------------------
  // The documented example

  lemma LowerOfLowercase(s: string)
    requires forall i :: 0 <= i < |s| ==> !('A' <= s[i] <= 'Z')
    ensures Lower(s) == s
  {
    forall i | 0 <= i < |s| ensures Lower(s)[i] == s[i] {
      assert Lower(s)[i] == LowerChar(s[i]);
    }
  }

  /** A lower-case code without separators matches a mapping exactly when one of its codes is that code. */
  lemma PlainCodeMatches(e: Entry, code: string)
    requires forall i :: 0 <= i < |code| ==> 'a' <= code[i] <= 'z'
    requires e.local.Some? ==> forall i :: 0 <= i < |e.local.value| ==> 'a' <= e.local.value[i] <= 'z'
    requires e.server.Some? ==> forall i :: 0 <= i < |e.server.value| ==> 'a' <= e.server.value[i] <= 'z'
    ensures e.MatchesCode(code) <==>
      (Present(e.local) && e.local.value == code) || (Present(e.server) && e.server.value == code)
  {
    ReplaceAbsent(code, '-', '_');
    ReplaceAbsent(code, '_', '-');
    LowerOfLowercase(code);
    if e.local.Some? { LowerOfLowercase(e.local.value); }
    if e.server.Some? { LowerOfLowercase(e.server.value); }
  }

  /** Local `en` and `fr` against server `en` and `es` give three mappings. */
  lemma ReconcileExample()
    ensures var r := Reconcile(LocalEntries(["en", "fr"]), [],
                               [ServerLanguage("en", "English", 100, 7), ServerLanguage("es", "Spanish", 50, 9)]);
      && |r| == 3
      && r[0] == Entry(Some("en"), Some("en"), Some("English"), Some(100), Some(7))
      && r[1] == LocalOnly("fr")
      && r[2] == ServerOnly("es", "Spanish")
  {
    var en := ServerLanguage("en", "English", 100, 7);
    var es := ServerLanguage("es", "Spanish", 50, 9);
    var langs := [en, es];
    var start := LocalEntries(["en", "fr"]);
    assert start == [LocalOnly("en"), LocalOnly("fr")];
    PlainCodeMatches(LocalOnly("en"), "en");
    assert GetIndex(start, [], "en") == Some(0);
    var first := Adopt(start, [], en);
    assert langs[..1] == [en];
    assert Reconcile(start, [], langs[..1]) == first by {
      assert Reconcile(start, [], langs[..1][..0]) == start;
    }
    assert first == [Entry(Some("en"), Some("en"), Some("English"), Some(100), Some(7)), LocalOnly("fr")];
    PlainCodeMatches(first[0], "es");
    PlainCodeMatches(first[1], "es");
    assert FindIndex(first, "es").None?;
    assert GetIndex(first, [], "es").None?;
  }
}
