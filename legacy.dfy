/**
 * The earlier form of the plugin: a list of `[original, replacement]` path pairs folded into a
 * lookup table that chooses each pane's title, edited by appending or removing a pair and then
 * re-sorting the list.
 */
module Legacy {
  import opened Wrappers
  import opened JsStrings
  import opened JsArrays

  /** One `[original, replacement]` pair of the legacy settings. */
  datatype PathMapping = PathMapping(original: Str, replacement: Str)

  /** The string form `sort` compares a pair by: its two strings joined with a comma. */
  function MappingString(m: PathMapping): (r: Str)
    ensures |r| == |m.original| + 1 + |m.replacement|
    ensures r[..|m.original|] == m.original && r[|m.original|] == ','
    ensures r[|m.original| + 1..] == m.replacement
  {
    m.original + "," + m.replacement
  }

  /** The lookup table the pairs fold into: each pair in turn sets its original path's entry. */
  function MappingTable(mappings: seq<PathMapping>): (table: map<Str, Str>)
    ensures forall k :: k in table ==> PathMapping(k, table[k]) in mappings
  {
    if mappings == [] then map[]
    else
      var last := mappings[|mappings| - 1];
      MappingTable(mappings[..|mappings| - 1])[last.original := last.replacement]
  }

  /** The last index holding a pair for `original`, if any. */
  function LastIndexOf(mappings: seq<PathMapping>, original: Str): (r: Option<nat>)
    ensures r.Some? ==> r.value < |mappings| && mappings[r.value].original == original
    ensures r.Some? ==> forall i :: r.value < i < |mappings| ==> mappings[i].original != original
    ensures r.None? ==> forall i :: 0 <= i < |mappings| ==> mappings[i].original != original
  {
    if mappings == [] then None
    else if mappings[|mappings| - 1].original == original then Some(|mappings| - 1)
    else LastIndexOf(mappings[..|mappings| - 1], original)
  }

  /**
   * The table has an entry exactly for the original paths of the pairs, and when several pairs
   * share an original path the last of them wins.
   */
  lemma {:induction false} MappingTableLastWins(mappings: seq<PathMapping>, original: Str)
    ensures match LastIndexOf(mappings, original)
      case None => original !in MappingTable(mappings)
      case Some(j) => original in MappingTable(mappings) && MappingTable(mappings)[original] == mappings[j].replacement
  {
    if mappings != [] {
      var init := mappings[..|mappings| - 1];
      MappingTableLastWins(init, original);
    }
  }

  /** `setPaneTitles` builds the table with `reduce`, writing each pair into the accumulator in turn. */
  method BuildMappingTable(mappings: seq<PathMapping>) returns (table: map<Str, Str>)
    ensures table == MappingTable(mappings)
  {
    table := map[];
    for i := 0 to |mappings|
      invariant table == MappingTable(mappings[..i])
    {
      assert mappings[..i + 1][..i] == mappings[..i];
      table := table[mappings[i].original := mappings[i].replacement];
    }
    assert mappings[..|mappings|] == mappings;
  }

  /** The title of a pane in folder `folderPath`: its mapped value, else `""` for the root `/`, else the path. */
  function PaneTitle(table: map<Str, Str>, folderPath: Str): (title: Str)
    ensures folderPath in table ==> title == table[folderPath]
    ensures folderPath !in table ==> title == DefaultTitle(folderPath)
  {
    if folderPath in table then table[folderPath] else DefaultTitle(folderPath)
  }

  /**
   * The title chosen for a folder: the replacement of the last pair for it, or, when no pair
   * names it, nothing for the root and the folder path itself otherwise.
   */
  lemma PaneTitleChoice(mappings: seq<PathMapping>, folderPath: Str)
    ensures match LastIndexOf(mappings, folderPath)
      case Some(j) => PaneTitle(MappingTable(mappings), folderPath) == mappings[j].replacement
      case None => PaneTitle(MappingTable(mappings), folderPath) == if folderPath == "/" then "" else folderPath
  {
    MappingTableLastWins(mappings, folderPath);
  }

  /** No original path has two pairs. */
  predicate DistinctOriginals(mappings: seq<PathMapping>)
  {
    forall i, j :: 0 <= i < j < |mappings| ==> mappings[i].original != mappings[j].original
  }

  /** With distinct original paths, the table maps `k` to `v` exactly when the pair `[k, v]` is in the list. */
  lemma TableOfDistinct(mappings: seq<PathMapping>, k: Str, v: Str)
    requires DistinctOriginals(mappings)
    ensures (k in MappingTable(mappings) && MappingTable(mappings)[k] == v) <==> PathMapping(k, v) in mappings
  {
    MappingTableLastWins(mappings, k);
    if PathMapping(k, v) in mappings {
      var i :| 0 <= i < |mappings| && mappings[i] == PathMapping(k, v);
      assert LastIndexOf(mappings, k) == Some(i);
    }
  }

  /** The table has a key `k` exactly when some pair starts with `k`. */
  lemma KeysOfTable(mappings: seq<PathMapping>, k: Str)
    ensures k in MappingTable(mappings) <==> exists i :: 0 <= i < |mappings| && mappings[i].original == k
  {
    MappingTableLastWins(mappings, k);
  }

  /** Two lists with the same pairs and distinct original paths give the same table. */
  lemma SameTable(a: seq<PathMapping>, b: seq<PathMapping>)
    requires DistinctOriginals(a) && DistinctOriginals(b)
    requires forall m :: m in a <==> m in b
    ensures MappingTable(a) == MappingTable(b)
  {
    forall k
      ensures k in MappingTable(a) <==> k in MappingTable(b)
    {
      KeysOfTable(a, k);
      KeysOfTable(b, k);
      if k in MappingTable(a) {
        var i :| 0 <= i < |a| && a[i].original == k;
        assert a[i] in b;
      }
      if k in MappingTable(b) {
        var i :| 0 <= i < |b| && b[i].original == k;
        assert b[i] in a;
      }
    }
    forall k | k in MappingTable(a)
      ensures MappingTable(a)[k] == MappingTable(b)[k]
    {
      TableOfDistinct(a, k, MappingTable(a)[k]);
      TableOfDistinct(b, k, MappingTable(a)[k]);
    }
  }

  /** In a list with distinct original paths every pair occurs once. */
  lemma {:induction false} DistinctOccursOnce(a: seq<PathMapping>, m: PathMapping)
    requires DistinctOriginals(a) && m in a
    ensures multiset(a)[m] == 1
  {
    var n := |a| - 1;
    var init := a[..n];
    assert a == init + [a[n]];
    assert DistinctOriginals(init) by {
      assert forall i, j :: 0 <= i < j < |init| ==> init[i] == a[i] && init[j] == a[j];
    }
    if a[n] != m {
      DistinctOccursOnce(init, m);
    }
  }

  /** A value at two different indices occurs at least twice. */
  lemma TwiceAtLeast(b: seq<PathMapping>, i: nat, j: nat)
    requires i < j < |b| && b[i] == b[j]
    ensures multiset(b)[b[i]] >= 2
  {
    assert b == b[..i] + [b[i]] + b[i + 1..j] + [b[j]] + b[j + 1..];
  }

  /** A permutation of a list whose original paths are distinct has distinct original paths too. */
  lemma PermutationKeepsDistinct(a: seq<PathMapping>, b: seq<PathMapping>)
    requires DistinctOriginals(a) && multiset(a) == multiset(b)
    ensures DistinctOriginals(b)
  {
    forall i, j | 0 <= i < j < |b|
      ensures b[i].original != b[j].original
    {
      assert b[i] in multiset(a) && b[j] in multiset(a);
      if b[i] == b[j] {
        TwiceAtLeast(b, i, j);
        DistinctOccursOnce(a, b[i]);
      }
    }
  }

  /** Re-sorting the pairs changes no title when no original path has two pairs. */
  lemma SortKeepsTable(mappings: seq<PathMapping>)
    requires DistinctOriginals(mappings)
    ensures DistinctOriginals(DefaultSort(mappings, MappingString))
    ensures MappingTable(DefaultSort(mappings, MappingString)) == MappingTable(mappings)
  {
    var sorted := DefaultSort(mappings, MappingString);
    PermutationKeepsDistinct(mappings, sorted);
    forall m ensures m in mappings <==> m in sorted {
      assert m in mappings <==> m in multiset(mappings);
      assert m in sorted <==> m in multiset(sorted);
    }
    SameTable(mappings, sorted);
  }

  /** The title a folder gets when no pair names it. */
  function DefaultTitle(folderPath: Str): Str
  {
    if folderPath == "/" then "" else folderPath
  }

  /**
   * Adding the identity pair for a folder that has no pair yet (and is not the root) changes no
   * pane's title, when no original path had two pairs.
   */
  lemma AddIdentityKeepsTitles(mappings: seq<PathMapping>, folder: Str, folderPath: Str)
    requires DistinctOriginals(mappings)
    requires forall i :: 0 <= i < |mappings| ==> mappings[i].original != folder
    requires folder != "/"
    ensures PaneTitle(MappingTable(DefaultSort(mappings + [PathMapping(folder, folder)], MappingString)), folderPath)
      == PaneTitle(MappingTable(mappings), folderPath)
  {
    var added := mappings + [PathMapping(folder, folder)];
    assert added[..|added| - 1] == mappings;
    var before := MappingTable(mappings);
    var grown := MappingTable(added);
    assert grown == before[folder := folder];
    SortKeepsTable(added);
    var after := MappingTable(DefaultSort(added, MappingString));
    assert after == grown;
    KeysOfTable(mappings, folder);
    assert folder !in before;
    if folderPath == folder {
      assert PaneTitle(after, folderPath) == folder;
    } else {
      assert (folderPath in after) == (folderPath in before);
    }
  }

  /** Removing a pair keeps the original paths distinct. */
  lemma RemoveKeepsDistinct(mappings: seq<PathMapping>, index: nat)
    requires DistinctOriginals(mappings) && index < |mappings|
    ensures DistinctOriginals(RemoveAt(mappings, index))
  {
    var rest := RemoveAt(mappings, index);
    forall i, j | 0 <= i < j < |rest| ensures rest[i].original != rest[j].original {
      var i' := if i < index then i else i + 1;
      var j' := if j < index then j else j + 1;
      assert rest[i] == mappings[i'] && rest[j] == mappings[j'] && i' < j';
    }
  }

  /** The pairs left after a removal are the pairs other than the removed one, when no pair repeats an original path. */
  lemma RemovedPairs(mappings: seq<PathMapping>, index: nat, m: PathMapping)
    requires DistinctOriginals(mappings) && index < |mappings|
    ensures m in RemoveAt(mappings, index) <==> m in mappings && m.original != mappings[index].original
  {
    var rest := RemoveAt(mappings, index);
    if m in rest {
      var i :| 0 <= i < |rest| && rest[i] == m;
      var i' := if i < index then i else i + 1;
      assert rest[i] == mappings[i'] && i' != index;
    }
    if m in mappings && m.original != mappings[index].original {
      var i :| 0 <= i < |mappings| && mappings[i] == m;
      var i' := if i < index then i else i - 1;
      assert rest[i'] == m;
    }
  }

  /** After a removal, a path has an entry exactly when it had one before and is not the removed pair's. */
  lemma KeyAfterRemove(mappings: seq<PathMapping>, index: nat, k: Str)
    requires DistinctOriginals(mappings) && index < |mappings|
    ensures k in MappingTable(RemoveAt(mappings, index)) <==>
      k in MappingTable(mappings) && k != mappings[index].original
  {
    var rest := RemoveAt(mappings, index);
    KeysOfTable(rest, k);
    KeysOfTable(mappings, k);
    if k in MappingTable(rest) {
      var i :| 0 <= i < |rest| && rest[i].original == k;
      RemovedPairs(mappings, index, rest[i]);
    }
    if k in MappingTable(mappings) && k != mappings[index].original {
      var i :| 0 <= i < |mappings| && mappings[i].original == k;
      RemovedPairs(mappings, index, mappings[i]);
    }
  }

  /** After a removal, every entry left keeps its value. */
  lemma ValueAfterRemove(mappings: seq<PathMapping>, index: nat, k: Str)
    requires DistinctOriginals(mappings) && index < |mappings|
    requires k in MappingTable(RemoveAt(mappings, index))
    ensures k in MappingTable(mappings)
    ensures MappingTable(RemoveAt(mappings, index))[k] == MappingTable(mappings)[k]
  {
    var rest := RemoveAt(mappings, index);
    var v := MappingTable(rest)[k];
    RemoveKeepsDistinct(mappings, index);
    TableOfDistinct(rest, k, v);
    RemovedPairs(mappings, index, PathMapping(k, v));
    TableOfDistinct(mappings, k, v);
  }

  /** Two maps with the same keys and the same value at every key are equal. */
  lemma MapExt(a: map<Str, Str>, b: map<Str, Str>)
    requires a.Keys == b.Keys && forall k | k in a :: a[k] == b[k]
    ensures a == b
  {
  }

  /** Removing a pair removes exactly its original path's entry from the table, when no pair repeats an original path. */
  lemma TableAfterRemove(mappings: seq<PathMapping>, index: nat)
    requires DistinctOriginals(mappings) && index < |mappings|
    ensures MappingTable(RemoveAt(mappings, index)) == MappingTable(mappings) - {mappings[index].original}
  {
    var after := MappingTable(RemoveAt(mappings, index));
    var expected := MappingTable(mappings) - {mappings[index].original};
    forall k ensures k in after <==> k in expected {
      KeyAfterRemove(mappings, index, k);
    }
    assert after.Keys == expected.Keys;
    forall k | k in after ensures after[k] == expected[k] {
      ValueAfterRemove(mappings, index, k);
    }
    MapExt(after, expected);
  }

  /**
   * Removing a pair and re-sorting gives its original path back its default title and leaves every
   * other title as it was, when no original path had two pairs.
   */
  lemma RemoveMappingTitles(mappings: seq<PathMapping>, index: nat, folderPath: Str)
    requires DistinctOriginals(mappings) && index < |mappings|
    ensures var after := MappingTable(DefaultSort(RemoveAt(mappings, index), MappingString));
      PaneTitle(after, folderPath) ==
        if folderPath == mappings[index].original then DefaultTitle(folderPath)
        else PaneTitle(MappingTable(mappings), folderPath)
  {
    var rest := RemoveAt(mappings, index);
    RemoveKeepsDistinct(mappings, index);
    SortKeepsTable(rest);
    TableAfterRemove(mappings, index);
    var after := MappingTable(DefaultSort(rest, MappingString));
    var before := MappingTable(mappings);
    assert after == before - {mappings[index].original};
    if folderPath == mappings[index].original {
      assert folderPath !in after;
    } else {
      assert folderPath in after <==> folderPath in before;
      assert folderPath in after ==> after[folderPath] == before[folderPath];
    }
  }

  /** The state of the legacy settings tab: the list of path pairs. */
  class LegacySettingTab {
    var pathMappings: seq<PathMapping>

    constructor (mappings: seq<PathMapping>)
      ensures pathMappings == mappings
    {
      pathMappings := mappings;
    }

    /**
     * The add button appends the pair `[folder, folder]` and re-sorts: the list grows by one, is in
     * order of the pairs' string forms, and holds the old pairs and the new one.
     */
    method AddMapping(folder: Str)
      modifies this
      ensures pathMappings == DefaultSort(old(pathMappings) + [PathMapping(folder, folder)], MappingString)
      ensures |pathMappings| == |old(pathMappings)| + 1 && SortedBy(pathMappings, MappingString)
      ensures multiset(pathMappings) == multiset(old(pathMappings)) + multiset{PathMapping(folder, folder)}
    {
      pathMappings := pathMappings + [PathMapping(folder, folder)];
      pathMappings := DefaultSort(pathMappings, MappingString);
    }

    /**
     * The trash button removes the pair at `index` and re-sorts: the list shrinks by one, is in
     * order, and holds the other pairs.
     */
    method RemoveMapping(index: nat)
      requires index < |pathMappings|
      modifies this
      ensures pathMappings == DefaultSort(RemoveAt(old(pathMappings), index), MappingString)
      ensures |pathMappings| == |old(pathMappings)| - 1 && SortedBy(pathMappings, MappingString)
      ensures multiset(pathMappings) == multiset(old(pathMappings)) - multiset{old(pathMappings)[index]}
    {
      ghost var before := pathMappings;
      SpliceRemove(pathMappings, index);
      pathMappings := Splice(pathMappings, index, 1, []);
      assert before == before[..index] + [before[index]] + before[index + 1..];
      pathMappings := DefaultSort(pathMappings, MappingString);
    }

    /** The original-path field writes into its pair in place, with no re-sort. */
    method SetOriginal(index: nat, value: Str)
      requires index < |pathMappings|
      modifies this
      ensures pathMappings == old(pathMappings)[index := old(pathMappings)[index].(original := value)]
    {
      pathMappings := pathMappings[index := pathMappings[index].(original := value)];
    }

    /** The replacement-path field writes into its pair in place, with no re-sort. */
    method SetReplacement(index: nat, value: Str)
      requires index < |pathMappings|
      modifies this
      ensures pathMappings == old(pathMappings)[index := old(pathMappings)[index].(replacement := value)]
    {
      pathMappings := pathMappings[index := pathMappings[index].(replacement := value)];
    }
  }
}
