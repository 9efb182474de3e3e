/** Post-processing of one detection result (utils.py): the class whitelist filter
    and the choice of the largest bounding box. Coordinates and areas are integers. */
module Utils {
  import opened Wrappers

  type Label = string

  /** One `xywh` row of a detection: centre x, centre y, width and height, in pixels. */
  datatype Box = Box(x: int, y: int, w: int, h: int)

  /** One detected object: its class index and its `xywh` row. */
  datatype Detection = Detection(cls: int, box: Box)

  /** The first result of the detector for one image: its boxes, in the detector's
      order, and the map from class index to class label. */
  datatype InferenceResult = InferenceResult(boxes: seq<Detection>, names: map<int, Label>)

  /** What filtering produces: the kept rows, or the `KeyError` raised when a box's
      class index has no label. */
  datatype FilterResult = Kept(rows: seq<Box>) | MissingLabel(classIdx: int)

  function Area(b: Box): int
  {
    b.w * b.h
  }

  /** Every box has a label in `names`. */
  predicate Labelled(ds: seq<Detection>, names: map<int, Label>)
  {
    forall i :: 0 <= i < |ds| ==> ds[i].cls in names
  }

  /** A labelled box survives the filter: its label is whitelisted, or nothing is. */
  predicate Keeps(names: map<int, Label>, whitelist: seq<Label>, d: Detection)
    requires d.cls in names
  {
    names[d.cls] in whitelist || |whitelist| == 0
  }

  /** The filter as a function of the boxes, defined on the last box so that it
      follows the loop that builds the list left to right. */
  function Filter(ds: seq<Detection>, names: map<int, Label>, whitelist: seq<Label>): (r: FilterResult)
    ensures r.Kept? ==> |r.rows| <= |ds|
  {
    if ds == [] then Kept([])
    else
      var last := ds[|ds| - 1];
      match Filter(ds[..|ds| - 1], names, whitelist)
      case MissingLabel(k) => MissingLabel(k)
      case Kept(rows) =>
        if last.cls !in names then MissingLabel(last.cls)
        else if Keeps(names, whitelist, last) then Kept(rows + [last.box])
        else Kept(rows)
  }

  /** The indices of the boxes the filter keeps, in increasing order. */
  function KeptIndices(ds: seq<Detection>, names: map<int, Label>, whitelist: seq<Label>): seq<int>
    requires Labelled(ds, names)
  {
    if ds == [] then []
    else
      var n := |ds| - 1;
      KeptIndices(ds[..n], names, whitelist) + (if Keeps(names, whitelist, ds[n]) then [n] else [])
  }

  /** Once a prefix of the boxes fails, the whole list fails with the same error: the
      exception ends the walk. */
  lemma {:induction false} FilterFailureIsFinal(ds: seq<Detection>, n: nat, names: map<int, Label>, whitelist: seq<Label>)
    requires n <= |ds|
    requires Filter(ds[..n], names, whitelist).MissingLabel?
    ensures Filter(ds, names, whitelist) == Filter(ds[..n], names, whitelist)
    decreases |ds| - n
  {
    if n < |ds| {
      assert ds[..n + 1][..n] == ds[..n];
      FilterFailureIsFinal(ds, n + 1, names, whitelist);
    } else {
      assert ds[..n] == ds;
    }
  }

  /** filterBoundingBoxes: walks the boxes in order and keeps the `xywh` row of each
      box whose label is whitelisted, or of every box when the whitelist is empty. */
  method FilterBoundingBoxes(result: InferenceResult, whitelist: seq<Label>) returns (r: FilterResult)
    ensures r == Filter(result.boxes, result.names, whitelist)
  {
    var boxes := result.boxes;
    var filtered: seq<Box> := [];
    var i := 0;
    while i < |boxes|
      invariant 0 <= i <= |boxes|
      invariant Filter(boxes[..i], result.names, whitelist) == Kept(filtered)
    {
      assert boxes[..i + 1][..i] == boxes[..i];
      var classIdx := boxes[i].cls;
      if classIdx !in result.names {
        FilterFailureIsFinal(boxes, i + 1, result.names, whitelist);
        return MissingLabel(classIdx);
      }
      if result.names[classIdx] in whitelist {
        filtered := filtered + [boxes[i].box];
      } else if |whitelist| == 0 {
        filtered := filtered + [boxes[i].box];
      }
      i := i + 1;
    }
    assert boxes[..i] == boxes;
    r := Kept(filtered);
  }

  /** The filter fails exactly when some box is unlabelled, and then it reports the
      class index of the first such box. */
  lemma {:induction false} FilterFailsOnFirstUnlabelled(ds: seq<Detection>, names: map<int, Label>, whitelist: seq<Label>)
    ensures Filter(ds, names, whitelist).MissingLabel? <==> !Labelled(ds, names)
    ensures Filter(ds, names, whitelist).MissingLabel? ==>
      exists i :: 0 <= i < |ds| && ds[i].cls !in names && Labelled(ds[..i], names)
                  && Filter(ds, names, whitelist).classIdx == ds[i].cls
  {
    if ds != [] {
      var n := |ds| - 1;
      FilterFailsOnFirstUnlabelled(ds[..n], names, whitelist);
      assert forall i :: 0 <= i < n ==> ds[..n][i] == ds[i];
      if Filter(ds[..n], names, whitelist).MissingLabel? {
        var i :| 0 <= i < n && ds[..n][i].cls !in names && Labelled(ds[..n][..i], names)
                 && Filter(ds[..n], names, whitelist).classIdx == ds[..n][i].cls;
        assert ds[..n][..i] == ds[..i];
      }
    }
  }

  /** The indices of kept boxes are in range, strictly increasing, and are exactly the
      boxes the whitelist keeps. */
  lemma {:induction false} KeptIndicesExact(ds: seq<Detection>, names: map<int, Label>, whitelist: seq<Label>)
    requires Labelled(ds, names)
    ensures var idx := KeptIndices(ds, names, whitelist);
      (forall k :: 0 <= k < |idx| ==> 0 <= idx[k] < |ds|)
      && (forall k, l :: 0 <= k < l < |idx| ==> idx[k] < idx[l])
      && (forall i :: 0 <= i < |ds| ==> (i in idx <==> Keeps(names, whitelist, ds[i])))
  {
    if ds != [] {
      var n := |ds| - 1;
      assert Labelled(ds[..n], names);
      KeptIndicesExact(ds[..n], names, whitelist);
      assert forall i :: 0 <= i < n ==> ds[..n][i] == ds[i];
    }
  }

  /** On labelled boxes the filter succeeds, and its rows are the unchanged `xywh`
      rows of the kept boxes, one per kept index, in the original order. */
  lemma {:induction false} FilterSelectsKeptRows(ds: seq<Detection>, names: map<int, Label>, whitelist: seq<Label>)
    requires Labelled(ds, names)
    ensures var r, idx := Filter(ds, names, whitelist), KeptIndices(ds, names, whitelist);
      r.Kept? && |r.rows| == |idx|
      && forall k :: 0 <= k < |idx| ==> 0 <= idx[k] < |ds| && r.rows[k] == ds[idx[k]].box
  {
    if ds != [] {
      var n := |ds| - 1;
      var prefix := ds[..n];
      assert Labelled(prefix, names);
      FilterSelectsKeptRows(prefix, names, whitelist);
      var rows, idx := Filter(prefix, names, whitelist).rows, KeptIndices(prefix, names, whitelist);
      forall k | 0 <= k < |idx|
        ensures 0 <= idx[k] < |ds| && rows[k] == ds[idx[k]].box
      {
        assert prefix[idx[k]] == ds[idx[k]];
      }
    }
  }

  /** With an empty whitelist every row is kept, unchanged and in order. */
  lemma {:induction false} FilterKeepsAllWithEmptyWhitelist(ds: seq<Detection>, names: map<int, Label>)
    requires Labelled(ds, names)
    ensures var r := Filter(ds, names, []);
      r.Kept? && |r.rows| == |ds| && forall i :: 0 <= i < |ds| ==> r.rows[i] == ds[i].box
  {
    if ds != [] {
      var n := |ds| - 1;
      assert Labelled(ds[..n], names);
      FilterKeepsAllWithEmptyWhitelist(ds[..n], names);
      assert forall i :: 0 <= i < n ==> ds[..n][i] == ds[i];
    }
  }

  /** Box `i` has the largest positive area, and every earlier box is strictly smaller. */
  predicate FirstLargest(ds: seq<Detection>, i: int)
  {
    0 <= i < |ds| && 0 < Area(ds[i].box)
    && (forall j :: 0 <= j < |ds| ==> Area(ds[j].box) <= Area(ds[i].box))
    && (forall j :: 0 <= j < i ==> Area(ds[j].box) < Area(ds[i].box))
  }

  /** getLargestBoundingBox: the row of largest area, the first one on ties because the
      comparison is strict; `None` stands for the zero default returned when there is
      no box or no box has positive area. */
  method GetLargestBoundingBox(result: InferenceResult) returns (largest: Option<Box>)
    ensures largest.None? <==> forall j :: 0 <= j < |result.boxes| ==> Area(result.boxes[j].box) <= 0
    ensures largest.Some? ==>
      exists i :: FirstLargest(result.boxes, i) && largest.value == result.boxes[i].box
  {
    var boxes := result.boxes;
    largest := None;
    var largestArea := 0;
    ghost var best := 0;
    for i := 0 to |boxes|
      invariant largest.None? ==> largestArea == 0 && forall j :: 0 <= j < i ==> Area(boxes[j].box) <= 0
      invariant largest.Some? ==>
        0 <= best < i && largest.value == boxes[best].box && largestArea == Area(boxes[best].box)
        && 0 < largestArea
        && (forall j :: 0 <= j < i ==> Area(boxes[j].box) <= largestArea)
        && (forall j :: 0 <= j < best ==> Area(boxes[j].box) < largestArea)
    {
      var width := boxes[i].box.w;
      var height := boxes[i].box.h;
      if width * height > largestArea {
        largestArea := width * height;
        largest := Some(boxes[i].box);
        best := i;
      }
    }
    if largest.Some? {
      assert FirstLargest(boxes, best);
    }
  }
}
