# Star Wars character interactions: episode aggregator

This project models the data side of the interactive Star Wars network
viewer in `Assignment4/assignment4.js`. Each episode is a graph. Its nodes
are characters, each with a name, a weight (`value`: how often the
character speaks) and a colour. Its links join two characters by their
positions in that episode's node list, with a weight of their own. Each of
the two diagrams on the page keeps a list of selected episode numbers. The
diagram shows the merge of the selected episodes:

- characters with the same name become one node whose weight is the sum;
- links between the same two characters, in either direction, become one
  link whose weight is the sum;
- the merged links are re-expressed as positions in the merged node list.

The model is split into these modules:

- `EpisodeData` (`episode_data.dfy`): the episode graph. A graph is
  well formed when every link position names one of its nodes.
- `NodeMerge` (`node_merge.dfy`): the name-keyed node fold.
- `LinkMerge` (`link_merge.dfy`): the link fold.
  - It is keyed, as in the source, on the string `source-target`, with a
    lookup of the reversed string.
  - It is compared with a reference merge keyed on the unordered pair of
    names.
- `Aggregator` (`aggregator.dfy`): the whole of `mergeSelectedEpisodes`.
  - It is an imperative method, with helper methods for each loop.
  - Each is proved equal to a specification function, `Merge`.
  - Lemmas about `Merge` state what the merged graph is.
- `Selection` (`selection.dfy`): `toggleEpisode`.
  - The edit of a selection list is a function, `Toggled`, with lemmas.
  - The page state is a class, `Viewer`. It holds the loaded episodes and a
    map from diagram id to selection list. Its method `ToggleEpisode`
    edits the list and merges.
- `Visibility` (`visibility.dfy`): the value-range filter of `updateDiagram`.
- `NodeNames` (`node_names.dfy`): the image-key normalisation of `selectNodeFill`.

Where the code departs from what an undirected graph calls for, the model
follows the code.

- **The link key.** An undirected graph calls for a key on the unordered
  pair of names. The code concatenates the two names around a `-` and looks
  up both orientations.
  - Both merges are modelled, and they are proved to agree whenever the
    key determines the pair (`LinkMerge.KeyedMergeIsPairMerge`). That holds
    for instance when no character name contains `-`
    (`LinkMerge.NoDashKeysUnambiguous`).
  - `LinkMerge.DashedNamesConflate` exhibits two different pairs that the
    code's key folds into one link: `A-B`/`C` and `A`/`B-C`.
  - Weight conservation and endpoint validity hold for the code's merge with
    no condition on names.
- **Errors.** The source has two error paths, and the model returns each as a
  result value instead of requiring it away:
  - A link whose position is outside its episode's node list makes the code
    fail when it reads the name. `Merge` returns `UnresolvedEndpoint` for that case.
  - A diagram id that has no selection list makes `toggleEpisode` fail before
    it changes anything. `ToggleEpisode` returns `NoSuchDiagram` and changes
    nothing.
  - When the merge fails inside `toggleEpisode`, the selection list has
    already been edited and nothing is drawn. `ToggleEpisode` returns
    `MergeFailed` with the list edited. At start-up the failure ends the
    script after the first diagram's toggle, so `StartUp` leaves the second
    diagram's list as it was.

The definitions the contracts below are stated in terms of follow the
source closely:

- `NodeNames.NormaliseName`: the image key of a name (line 206).
- `LinkMerge.LinkKey`: the string key of a link (lines 71-72).
- `NodeMerge.AddNode` and `NodeMerge.MergeNodes`: one step of the node fold
  and the whole fold (lines 57-64).
- `LinkMerge.AddLink` and `LinkMerge.MergeLinks`: one step of the link fold,
  looking up the key and then the reversed key, and the whole fold (lines 71-79).
- `Aggregator.Resolve`: a link re-expressed by the names at its two
  positions (lines 66-70).
- `Aggregator.Reindex` and `Aggregator.Reindexed`: a merged link re-expressed
  by the first positions of its names in the merged nodes (lines 90-94).
- `Aggregator.MergeAll` and `Aggregator.Merge`: the merge of the
  participating episodes, and of the episodes a selection list picks
  (lines 48-101).
- `Visibility.NodeHidden` and `Visibility.LinkHidden`: the two hiding
  conditions (line 488 and lines 495-498), in which a NaN bound compares
  false (`Visibility.Below`, `Visibility.Above`).

## Model

| member | source | states |
|---|---|---|
| Aggregator.SelectedIndices | Assignment4/assignment4.js:49-51 | the positions taken part are below the episode count, strictly increasing (each episode once, in list order), and position i is taken exactly when i+1 is in the selection |
| Aggregator.Selected | Assignment4/assignment4.js:49-51 | the participating episodes are exactly the episodes at those positions, in that order |
| Aggregator.SelectEpisodes | Assignment4/assignment4.js:49-51 | the filter loop yields exactly the participating episodes |
| Aggregator.FoldEpisodeNodes | Assignment4/assignment4.js:57-64 | folding one episode's nodes into the node accumulator gives the node merge of everything seen so far followed by that episode's nodes |
| Aggregator.StoreNode | Assignment4/assignment4.js:59-63 | storing one node adds its weight to the stored node of the same name, or appends a copy when the name is new |
| Aggregator.FoldEpisode | Assignment4/assignment4.js:56-81 | folding one more episode succeeds exactly when its link positions are in range, and then the accumulators hold the merge of all episodes so far |
| Aggregator.MergeEpisodes | Assignment4/assignment4.js:56-100 | folding the participating episodes in order and re-expressing the links gives their merge, or the error when a link position is out of range |
| Aggregator.StoreLink | Assignment4/assignment4.js:71-79 | storing one link looks up its key, then its reversed key, adding the weight to the entry found or appending a copy |
| Aggregator.FoldEpisodeLinks | Assignment4/assignment4.js:65-80 | the link loop succeeds exactly when every link position of the episode is in range, and then extends the link merge by the episode's links resolved to names |
| Aggregator.ReindexLinks | Assignment4/assignment4.js:86-95 | each merged link is re-expressed by the first positions of its two names in the merged nodes, weight kept |
| Aggregator.MergeSelectedEpisodes | Assignment4/assignment4.js:48-101 | the whole aggregation returns the merge of the selected episodes, or the error when a link position is out of range |
| Aggregator.SelectionActsAsASet | Assignment4/assignment4.js:49-51 | two selection lists holding the same numbers, in any order and with any repeats, give the same merge |
| Aggregator.NothingSelected | Assignment4/assignment4.js:49-51 | with an empty selection no episode takes part |
| Aggregator.EmptySelectionMergesToNothing | Assignment4/assignment4.js:48-101 | an empty selection merges to a graph with no nodes and no links |
| Aggregator.AllLinksNamesAreNodeNames | Assignment4/assignment4.js:65-70 | every name a resolved link carries is the name of a node of a participating episode |
| Aggregator.MergedNodes | Assignment4/assignment4.js:56-64 | merged node names are distinct and in first-seen order; each merged node is the first same-named node with its weight replaced by the sum over all same-named nodes; every participating name is present; total node weight is kept |
| Aggregator.MergedLinksResolve | Assignment4/assignment4.js:65-95 | the merged graph is well formed, and its k-th link's positions name exactly the endpoints of the k-th merged named link, with its weight |
| Aggregator.MergeConservesWeight | Assignment4/assignment4.js:56-95 | total node weight and total link weight of the merged graph equal those of the participating episodes |
| Aggregator.MergedLinksArePairMerge | Assignment4/assignment4.js:65-80 | when the key determines the pair, each unordered pair of names has one merged link, oriented as first seen, carrying the pair's total weight, in first-seen order, and every pair is present |
| Aggregator.SelectedIndicesOfOne | Assignment4/assignment4.js:49-51 | with a one-number selection, the episode at that number takes part when it is in range, and no episode otherwise |
| Aggregator.ReindexResolvedIsIdentity | Assignment4/assignment4.js:65-70 | resolving an episode's links to names and looking the names up again in its own nodes gives back its links, when its node names are distinct |
| Aggregator.NoDashEpisodeSelfMerges | Assignment4/assignment4.js:71-72 | an episode with distinct node names and distinct character pairs whose names contain no `-` has unambiguous link keys |
| Aggregator.SelfMergingLinks | Assignment4/assignment4.js:65-80 | the resolved links of an episode with distinct node names, distinct character pairs and unambiguous link keys merge to themselves |
| Aggregator.SingleEpisodeIdentity | Assignment4/assignment4.js:48-101 | selecting alone one episode with distinct node names, distinct character pairs and unambiguous link keys gives back that episode unchanged: the same nodes with the same weights and colours, and the same links |
| Aggregator.LukeAndLeiaLinks | Assignment4/assignment4.js:71-79 | a LEIA-to-LUKE link is found under the reversed key of an earlier LUKE-to-LEIA link and adds its weight there |
| Aggregator.LukeAndLeiaMerge | Assignment4/assignment4.js:48-101 | two episodes listing LUKE and LEIA in opposite orders, one linking LUKE to LEIA and the other LEIA to LUKE, merge to two summed nodes and one LUKE-to-LEIA link of weight 8 |
| NodeMerge.IndexOfName | Assignment4/assignment4.js:59 | the lookup returns the first position holding the name, or -1 when none does |
| NodeMerge.MergeNodesConservesWeight | Assignment4/assignment4.js:57-64 | the node fold keeps the total weight |
| NodeMerge.DistinctNodesMergeToThemselves | Assignment4/assignment4.js:57-64 | nodes whose names are already distinct pass through the node fold unchanged |
| NodeMerge.MergeNodesCorrect | Assignment4/assignment4.js:57-64 | the node fold yields distinct names in first-seen order, each the first occurrence with the summed weight and its other fields unchanged, covering every input name |
| LinkMerge.IndexOfKey | Assignment4/assignment4.js:73-75 | the key lookup returns the first entry whose key is the given string, or -1 |
| LinkMerge.MergeLinksConservesWeight | Assignment4/assignment4.js:71-79 | the link fold keeps the total link weight |
| LinkMerge.MergeLinksKeysDistinct | Assignment4/assignment4.js:71-79 | no two merged links have the same key |
| LinkMerge.MergeLinksEndpoints | Assignment4/assignment4.js:66-79 | every name in the merged links is a name of an input link |
| LinkMerge.IndexOfPair | Assignment4/assignment4.js:73-75 | the pair lookup returns the first entry joining the two names in either orientation, or -1 |
| LinkMerge.MergeLinksByPairCorrect | Assignment4/assignment4.js:71-79 | the reference pair merge yields one entry per unordered pair, the first link of that pair in its orientation with the pair's total weight, in first-seen order, covering every pair |
| LinkMerge.DistinctPairsMergeToThemselves | Assignment4/assignment4.js:71-79 | links that already join distinct character pairs pass through the pair merge unchanged |
| LinkMerge.KeyedMergeIsPairMerge | Assignment4/assignment4.js:71-79 | when keys determine the pairs among the link names, the string-keyed merge equals the pair merge |
| LinkMerge.KeyHeadOfKey | Assignment4/assignment4.js:71 | the part of a key before its first `-` is the source name when the source name has no `-` |
| LinkMerge.NoDashKeysUnambiguous | Assignment4/assignment4.js:71-72 | among names without `-`, a key determines its ordered pair |
| LinkMerge.DashedNamesConflate | Assignment4/assignment4.js:71-79 | links A-B to C and A to B-C are summed into one link by the string key, while the pair merge keeps them apart |
| Selection.IndexOf | Assignment4/assignment4.js:38 | the index lookup returns the first position holding the number, or -1 |
| Selection.Toggled | Assignment4/assignment4.js:38-43 | checking adds one copy of the number to the list's contents; unchecking removes one copy when there is one |
| Selection.CheckAppends | Assignment4/assignment4.js:41-42 | checking appends the number at the end and keeps every earlier entry, even when the number is present |
| Selection.UncheckRemovesFirstOccurrence | Assignment4/assignment4.js:38-40 | unchecking a listed number removes exactly its first occurrence and keeps the rest in order |
| Selection.UncheckAbsentKeepsList | Assignment4/assignment4.js:38-43 | unchecking an unlisted number leaves the list unchanged |
| Selection.ToggleMembership | Assignment4/assignment4.js:38-43 | afterwards the number is listed exactly when it was checked or listed twice or more; other numbers keep their membership |
| Selection.RecheckKeepsMerge | Assignment4/assignment4.js:41-51 | checking a number already listed leaves the merged graph unchanged |
| Selection.CheckThenUncheck | Assignment4/assignment4.js:38-43 | checking then unchecking restores the list's contents and its merge, and the list itself when the number was not listed |
| Selection.ToggleDecidesParticipation | Assignment4/assignment4.js:36-51 | after a change the episode takes part exactly when it was checked or listed twice or more; every other episode keeps its part |
| Selection.Viewer.constructor | Assignment4/assignment4.js:16-19 | both diagrams start with episodes 1 to 6 selected |
| Selection.Viewer.ToggleEpisode | Assignment4/assignment4.js:36-46 | the diagram's list is replaced by its toggled list and no other diagram changes; the redraw gets the merged graph of the new selection, or the merge fails with the list already edited; an unknown diagram changes nothing |
| Selection.StartUpSelection | Assignment4/assignment4.js:22-23 | checking episode 7 on the initial list gives episodes 1 to 7 |
| Selection.StartUp | Assignment4/assignment4.js:16-23 | after start-up the first diagram lists episodes 1 to 7; the second does too when episodes 1 to 7 merge, and keeps episodes 1 to 6 when that merge fails |
| Visibility.NodesShown | Assignment4/assignment4.js:487-491 | a node is shown exactly when its weight is at least the minimum and at most the maximum, a NaN bound (an empty or non-numeric box) leaving its side of the range open |
| Visibility.LinksShown | Assignment4/assignment4.js:493-502 | a link is shown exactly when both nodes it joins are shown |
| Visibility.LinkHiddenIffEndHidden | Assignment4/assignment4.js:493-502 | the four comparisons hide a link exactly when one of its ends is hidden |
| Visibility.ParsedRangeShows | Assignment4/assignment4.js:487-491 | with two numeric bounds, a node is shown exactly when its weight lies within the range, bounds included |
| Visibility.NaNBoundsShowAll | Assignment4/assignment4.js:486-503 | when neither bound is a number, every node and every link is shown |
| Visibility.EmptyRangeHidesAll | Assignment4/assignment4.js:486-503 | a minimum above the maximum hides every node and every link |
| NodeNames.ToLowerCaseShape | Assignment4/assignment4.js:206 | lower-casing keeps the length and leaves no upper-case letter |
| NodeNames.RemoveSeparatorsShape | Assignment4/assignment4.js:206 | removing separators from a lower-case string never lengthens it and leaves no separator |
| NodeNames.NormalisedIsNormal | Assignment4/assignment4.js:206 | an image key has no upper-case letter, whitespace, `/` or `-`, and is no longer than the name |
| NodeNames.NormalIsFixed | Assignment4/assignment4.js:206 | a string with none of those characters is its own image key |
| NodeNames.NormaliseIdempotent | Assignment4/assignment4.js:206 | normalising an image key again changes nothing |
| NodeNames.NormaliseByCharacter | Assignment4/assignment4.js:206 | normalising works character by character: a character is kept, lowered, exactly when its lowered form is not a separator |
| NodeNames.R2D2 | Assignment4/assignment4.js:206 | "R2-D2" has the image key "r2d2" |
| NodeNames.C3PO | Assignment4/assignment4.js:206 | "C-3PO" has the image key "c3po" |

## Left out

- Loading of the episode files, the character images and the image list (`loadEpisodes`, `loadImages`, `loadData`): network I/O. The loaded episodes are a parameter of the model.
- `createDiagram`: the force simulation, zoom, SVG patterns and the size scale are library calls and floating-point geometry. The call on line 45 that draws the merged graph is represented only by the `Redrawn` outcome.
- The image lookup and pattern creation in `selectNodeFill` after the key is computed: DOM work. Only the key (line 206) is modelled.
- Click handlers, tooltips and the slider widgets (`fillSlider`, the slider input handlers): DOM and floating-point styling. Only the range rule of `updateDiagram` is modelled, and it is applied per graph; the source applies it to every circle and line on the page, which is the same rule applied to both diagrams.
- `Assignment4/server.js` and `Assigment2/ScatterPlot.py` are not part of this model: file serving and canvas drawing.
- `getParsed` (lines 457-461): `parseInt` itself is not modelled. Each bound is given as its outcome: the integer parsed from the box, or NaN when the box holds no number (`Visibility.Bound`).
- Weights are modelled as integers. The source holds JSON numbers, and floating-point rounding is not modelled.
- NodeNames.ToLowerCaseShape: lower-casing is modelled on ASCII letters only; the Unicode case mapping of `toLowerCase` is not modelled.
- That the input episodes are not changed by the merge (the source stores copies) holds by construction, because the model works on values; aliasing is not modelled.
- Adding a selection's merge to another's, and independence from the order of episodes in the list, are not proved as separate lemmas. `SelectionActsAsASet` covers the order and the repeats within a selection list.
