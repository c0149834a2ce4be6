/** The per-diagram episode selections and the checkbox handler that edits
    them and redraws the diagram. */
module Selection {
  import opened EpisodeData
  import opened Aggregator

  /** Position of the first occurrence of `x`, or -1. */
  function IndexOf(s: seq<int>, x: int): (r: int)
    ensures -1 <= r < |s|
    ensures 0 <= r ==> s[r] == x
    ensures forall k :: 0 <= k < |s| && (r == -1 || k < r) ==> s[k] != x
  {
    if s == [] then -1
    else if s[0] == x then 0
    else
      var k := IndexOf(s[1..], x);
      if k == -1 then -1 else k + 1
  }

  /** A selection list after its checkbox for `episodeNumber` changed:
      unchecking removes one occurrence, checking adds one. */
  function Toggled(list: seq<int>, episodeNumber: int, isChecked: bool): (r: seq<int>)
    ensures isChecked ==> multiset(r) == multiset(list) + multiset{episodeNumber}
    ensures !isChecked ==> multiset(r) == multiset(list) - multiset{episodeNumber}
  {
    var index := IndexOf(list, episodeNumber);
    if index != -1 && !isChecked then
      assert list == list[..index] + [list[index]] + list[index + 1..];
      list[..index] + list[index + 1..]
    else if isChecked then
      list + [episodeNumber]
    else
      list
  }

  /** Checking appends the number at the end, even when it is listed already. */
  lemma CheckAppends(list: seq<int>, episodeNumber: int)
    ensures Toggled(list, episodeNumber, true)[..|list|] == list
    ensures |Toggled(list, episodeNumber, true)| == |list| + 1
    ensures Toggled(list, episodeNumber, true)[|list|] == episodeNumber
  {
  }

  /** Unchecking a listed number removes its first occurrence and keeps
      every other entry in place and in order. */
  lemma UncheckRemovesFirstOccurrence(list: seq<int>, episodeNumber: int)
    requires episodeNumber in list
    ensures exists i ::
      && 0 <= i < |list| && list[i] == episodeNumber && episodeNumber !in list[..i]
      && Toggled(list, episodeNumber, false) == list[..i] + list[i + 1..]
  {
    var i := IndexOf(list, episodeNumber);
    assert episodeNumber !in list[..i];
  }

  /** Unchecking a number that is not listed leaves the list as it is. */
  lemma UncheckAbsentKeepsList(list: seq<int>, episodeNumber: int)
    requires episodeNumber !in list
    ensures Toggled(list, episodeNumber, false) == list
  {
  }

  /** After a change the episode is listed exactly when it was checked or
      was listed more than once; no other number changes membership. */
  lemma ToggleMembership(list: seq<int>, episodeNumber: int, isChecked: bool)
    ensures episodeNumber in Toggled(list, episodeNumber, isChecked) <==>
      isChecked || multiset(list)[episodeNumber] >= 2
    ensures forall m :: m != episodeNumber ==> (m in Toggled(list, episodeNumber, isChecked) <==> m in list)
  {
    var r := Toggled(list, episodeNumber, isChecked);
    assert episodeNumber in r <==> multiset(r)[episodeNumber] > 0;
    forall m | m != episodeNumber ensures m in r <==> m in list {
      assert m in r <==> multiset(r)[m] > 0;
      assert m in list <==> multiset(list)[m] > 0;
    }
  }

  /** Checking an episode that is already selected does not change the
      merged graph, though the list grows: the merge selects by membership. */
  lemma RecheckKeepsMerge(episodes: seq<Graph>, list: seq<int>, episodeNumber: int)
    requires episodeNumber in list
    ensures Merge(episodes, Toggled(list, episodeNumber, true)) == Merge(episodes, list)
  {
    SelectionActsAsASet(episodes, Toggled(list, episodeNumber, true), list);
  }

  /** Checking and then unchecking an episode leaves the selection holding
      the same numbers as before, and so the same merged graph; when the
      number was not listed, the list itself is restored. */
  lemma CheckThenUncheck(episodes: seq<Graph>, list: seq<int>, episodeNumber: int)
    ensures multiset(Toggled(Toggled(list, episodeNumber, true), episodeNumber, false)) == multiset(list)
    ensures episodeNumber !in list ==> Toggled(Toggled(list, episodeNumber, true), episodeNumber, false) == list
    ensures Merge(episodes, Toggled(Toggled(list, episodeNumber, true), episodeNumber, false)) == Merge(episodes, list)
  {
    var r := Toggled(Toggled(list, episodeNumber, true), episodeNumber, false);
    forall m ensures m in r <==> m in list {
      assert m in r <==> multiset(r)[m] > 0;
      assert m in list <==> multiset(list)[m] > 0;
    }
    SelectionActsAsASet(episodes, r, list);
    if episodeNumber !in list {
      var l := list + [episodeNumber];
      assert IndexOf(l, episodeNumber) == |list|;
      assert l[..|list|] == list;
    }
  }

  /** After a change, episode `episodeNumber` takes part in the merge
      exactly when it was checked or was listed more than once before;
      every other episode keeps its part. */
  lemma ToggleDecidesParticipation(n: nat, list: seq<int>, episodeNumber: int, isChecked: bool)
    requires 1 <= episodeNumber <= n
    ensures episodeNumber - 1 in SelectedIndices(n, Toggled(list, episodeNumber, isChecked)) <==>
      isChecked || multiset(list)[episodeNumber] >= 2
    ensures forall i :: 0 <= i < n && i != episodeNumber - 1 ==>
      (i in SelectedIndices(n, Toggled(list, episodeNumber, isChecked)) <==> i in SelectedIndices(n, list))
  {
    ToggleMembership(list, episodeNumber, isChecked);
  }

  /** The outcome of a checkbox change: the diagram is redrawn from the
      merged graph; or the merge fails, the list having been edited, and
      nothing is drawn; or the diagram is unknown and nothing happens. */
  datatype ToggleOutcome = Redrawn(graph: Graph) | MergeFailed | NoSuchDiagram

  /** The loaded episodes and the selection list of each diagram. */
  class Viewer {
    var episodes: seq<Graph>
    var selectedEpisodes: map<string, seq<int>>

    /** Both diagrams start with episodes 1 to 6 selected. */
    constructor (loaded: seq<Graph>)
      ensures episodes == loaded
      ensures selectedEpisodes == map["diagram1" := [1, 2, 3, 4, 5, 6], "diagram2" := [1, 2, 3, 4, 5, 6]]
    {
      episodes := loaded;
      selectedEpisodes := map["diagram1" := [1, 2, 3, 4, 5, 6], "diagram2" := [1, 2, 3, 4, 5, 6]];
    }

    /** A checkbox change: edit the diagram's selection list, then merge the
        episodes it selects for the redraw. The list is edited even when the
        merge then fails, in which case nothing is redrawn. */
    method ToggleEpisode(episodeNumber: int, diagramId: string, isChecked: bool) returns (outcome: ToggleOutcome)
      modifies this
      ensures episodes == old(episodes)
      ensures diagramId !in old(selectedEpisodes) ==>
        selectedEpisodes == old(selectedEpisodes) && outcome == NoSuchDiagram
      ensures diagramId in old(selectedEpisodes) ==>
        selectedEpisodes == old(selectedEpisodes)[diagramId := Toggled(old(selectedEpisodes)[diagramId], episodeNumber, isChecked)] &&
        (Merge(episodes, selectedEpisodes[diagramId]).Merged? ==>
           outcome == Redrawn(Merge(episodes, selectedEpisodes[diagramId]).graph)) &&
        (!Merge(episodes, selectedEpisodes[diagramId]).Merged? ==> outcome == MergeFailed)
    {
      if diagramId !in selectedEpisodes {
        return NoSuchDiagram;
      }
      var diagramSelection := selectedEpisodes[diagramId];
      var index := IndexOf(diagramSelection, episodeNumber);
      if index != -1 && !isChecked {
        diagramSelection := diagramSelection[..index] + diagramSelection[index + 1..];
      } else if isChecked {
        diagramSelection := diagramSelection + [episodeNumber];
      }
      assert diagramSelection == Toggled(selectedEpisodes[diagramId], episodeNumber, isChecked);
      selectedEpisodes := selectedEpisodes[diagramId := diagramSelection];
      var merged := MergeSelectedEpisodes(episodes, diagramSelection);
      match merged {
        case Merged(g) => return Redrawn(g);
        case UnresolvedEndpoint => return MergeFailed;
      }
    }
  }

  /** Checking episode 7 on a list of episodes 1 to 6. */
  lemma StartUpSelection()
    ensures Toggled([1, 2, 3, 4, 5, 6], 7, true) == [1, 2, 3, 4, 5, 6, 7]
  {
  }

  /** Overwriting both entries of a two-entry map. */
  lemma BothOverwritten<K, V>(a: K, b: K, v: V, w: V)
    ensures map[a := v, b := v][a := w][b := w] == map[a := w, b := w]
  {
  }

  /** Start-up: both diagrams are redrawn with episode 7 checked as well.
      A failing merge ends start-up after the first diagram's list has
      already gained episode 7, leaving the second diagram's list as it was. */
  method StartUp(loaded: seq<Graph>) returns (viewer: Viewer)
    ensures fresh(viewer)
    ensures viewer.episodes == loaded
    ensures Merge(loaded, [1, 2, 3, 4, 5, 6, 7]).Merged? ==>
      viewer.selectedEpisodes == map["diagram1" := [1, 2, 3, 4, 5, 6, 7], "diagram2" := [1, 2, 3, 4, 5, 6, 7]]
    ensures !Merge(loaded, [1, 2, 3, 4, 5, 6, 7]).Merged? ==>
      viewer.selectedEpisodes == map["diagram1" := [1, 2, 3, 4, 5, 6, 7], "diagram2" := [1, 2, 3, 4, 5, 6]]
  {
    viewer := new Viewer(loaded);
    ghost var initial := viewer.selectedEpisodes;
    StartUpSelection();
    var first := viewer.ToggleEpisode(7, "diagram1", true);
    assert viewer.selectedEpisodes == initial["diagram1" := [1, 2, 3, 4, 5, 6, 7]];
    if first.MergeFailed? {
      return;
    }
    var _ := viewer.ToggleEpisode(7, "diagram2", true);
    assert viewer.selectedEpisodes == initial["diagram1" := [1, 2, 3, 4, 5, 6, 7]]["diagram2" := [1, 2, 3, 4, 5, 6, 7]];
    BothOverwritten("diagram1", "diagram2", [1, 2, 3, 4, 5, 6], [1, 2, 3, 4, 5, 6, 7]);
  }
}
