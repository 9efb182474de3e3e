/** The backlog worker (process.py) as a sequential state machine: a FIFO backlog of
    tasks with Python's unfinished-task counter, the `running` flag and the
    `latest_result` slot. A task is an image; `None` in the backlog is the stop
    sentinel. Inference is the parameter `infer`. */
module Process {
  import opened Wrappers
  import opened Utils

  type Image = string

  /** The labels the worker keeps. */
  const Whitelist: seq<Label> := ["person", "bear"]

  /** How the worker loop ends: the `running` check fails, the sentinel is dequeued,
      the filter raises `KeyError`, or `task_done` raises `ValueError`. The last two
      are exceptions that nothing catches, so they end the worker thread. */
  datatype Exit = NotRunning | Sentinel | LabelError(classIdx: int) | TaskDoneError

  /** The abstract value of a `Processor` (its `Snapshot`): the module state of
      process.py, on which the worker loop is specified. */
  datatype State = State(backlog: seq<Option<Image>>, unfinished: nat, running: bool, latest: Option<seq<Box>>)

  /** The end of a run of the worker loop: the final state, how the loop ended, how
      many items it took from the backlog, and the tasks whose result it published. */
  datatype Outcome = Outcome(state: State, exit: Exit, taken: nat, published: seq<Image>)

  /** The rows the worker publishes for a task whose result is labelled: the
      unchanged rows of exactly the boxes labelled "person" or "bear", in order. */
  function Published(infer: Image -> InferenceResult, img: Image): (r: seq<Box>)
    requires Labelled(infer(img).boxes, infer(img).names)
    ensures var ds, names, idx := infer(img).boxes, infer(img).names, KeptIndices(infer(img).boxes, infer(img).names, Whitelist);
      |r| == |idx|
      && (forall k :: 0 <= k < |idx| ==> 0 <= idx[k] < |ds| && r[k] == ds[idx[k]].box && names[ds[idx[k]].cls] in Whitelist)
      && (forall i :: 0 <= i < |ds| && names[ds[i].cls] in Whitelist ==> i in idx)
  {
    FilterSelectsKeptRows(infer(img).boxes, infer(img).names, Whitelist);
    KeptIndicesExact(infer(img).boxes, infer(img).names, Whitelist);
    Filter(infer(img).boxes, infer(img).names, Whitelist).rows
  }

  /** One pass of the loop body after a successful `running` check: either the loop
      goes on with the next state, having published `img`, or it ends. */
  datatype Iteration = Continue(next: State, img: Image) | Halt(next: State, exit: Exit, published: seq<Image>)

  /** The body of the `while running` loop: take the oldest item, stop on the
      sentinel, filter the task's inference result, overwrite the latest result and
      mark the task done. */
  function Iterate(s: State, infer: Image -> InferenceResult): (it: Iteration)
    requires s.backlog != []
    ensures it.next.backlog == s.backlog[1..] && it.next.running == s.running
    ensures it.Continue? ==> s.backlog[0] == Some(it.img) && it.next.unfinished + 1 == s.unfinished
    ensures it.Halt? ==> !it.exit.NotRunning? && |it.published| <= 1
  {
    var rest := s.backlog[1..];
    match s.backlog[0]
    case None => Halt(s.(backlog := rest), Sentinel, [])
    case Some(img) =>
      match Filter(infer(img).boxes, infer(img).names, Whitelist)
      case MissingLabel(k) => Halt(s.(backlog := rest), LabelError(k), [])
      case Kept(rows) =>
        var s' := s.(backlog := rest, latest := Some(rows));
        if s'.unfinished == 0 then Halt(s', TaskDoneError, [img])
        else Continue(s'.(unfinished := s'.unfinished - 1), img)
  }

  /** process_backlog, run to its end. While running, the backlog must already hold a
      sentinel, since a blocking get on an empty backlog never returns. */
  function Run(s: State, infer: Image -> InferenceResult): (o: Outcome)
    requires s.running ==> None in s.backlog
    ensures |o.published| <= o.taken <= |s.backlog|
    decreases |s.backlog|
  {
    if !s.running then Outcome(s, NotRunning, 0, [])
    else
      match Iterate(s, infer)
      case Halt(t, exit, published) => Outcome(t, exit, 1, published)
      case Continue(t, img) =>
        assert s.backlog == [Some(img)] + t.backlog;
        var o := Run(t, infer);
        o.(taken := o.taken + 1, published := [img] + o.published)
  }

  /** The loop takes items from the front of the backlog and touches nothing behind
      them: one item per published task, plus the sentinel or the task whose filter
      failed. */
  lemma {:induction false} RunTakesFromFront(s: State, infer: Image -> InferenceResult)
    requires s.running ==> None in s.backlog
    ensures var o := Run(s, infer);
      o.taken <= |s.backlog| && o.state.backlog == s.backlog[o.taken..]
      && o.taken == |o.published| + (if o.exit.Sentinel? || o.exit.LabelError? then 1 else 0)
    decreases |s.backlog|
  {
    if s.running {
      match Iterate(s, infer)
      case Halt(t, exit, published) =>
      case Continue(t, img) =>
        assert s.backlog == [Some(img)] + t.backlog;
        RunTakesFromFront(t, infer);
        assert t.backlog[Run(t, infer).taken..] == s.backlog[Run(t, infer).taken + 1..];
    }
  }

  /** FIFO with sentinel cut-off: the published tasks are the items at the front of
      the backlog, in order, and a loop that ends on the sentinel ends on the first
      `None` in the backlog. */
  lemma {:induction false} RunPublishesInOrder(s: State, infer: Image -> InferenceResult)
    requires s.running ==> None in s.backlog
    ensures var o := Run(s, infer);
      |o.published| <= |s.backlog|
      && (forall k :: 0 <= k < |o.published| ==> s.backlog[k] == Some(o.published[k]))
      && (o.exit == Sentinel ==> |o.published| < |s.backlog| && s.backlog[|o.published|] == None)
      && (o.exit.LabelError? ==> |o.published| < |s.backlog| && s.backlog[|o.published|].Some?)
    decreases |s.backlog|
  {
    if s.running {
      match Iterate(s, infer)
      case Halt(t, exit, published) =>
      case Continue(t, img) =>
        assert s.backlog == [Some(img)] + t.backlog;
        RunPublishesInOrder(t, infer);
        var p := Run(t, infer).published;
        forall k | 0 <= k < |p| + 1
          ensures s.backlog[k] == Some(([img] + p)[k])
        {
          if k > 0 {
            assert s.backlog[k] == t.backlog[k - 1];
          }
        }
    }
  }

  /** The loop never changes `running`, and it ends through the `running` check
      exactly when it starts with `running` false. */
  lemma {:induction false} RunKeepsRunningFlag(s: State, infer: Image -> InferenceResult)
    requires s.running ==> None in s.backlog
    ensures var o := Run(s, infer);
      o.state.running == s.running && (o.exit == NotRunning <==> !s.running)
    decreases |s.backlog|
  {
    if s.running {
      match Iterate(s, infer)
      case Halt(t, exit, published) =>
      case Continue(t, img) =>
        assert s.backlog == [Some(img)] + t.backlog;
        RunKeepsRunningFlag(t, infer);
    }
  }

  /** Last write wins: after the loop, `latest_result` holds the filtered result of the
      last task it published, or is unchanged when it published none. */
  lemma {:induction false} RunLastWriteWins(s: State, infer: Image -> InferenceResult)
    requires s.running ==> None in s.backlog
    ensures var o := Run(s, infer);
      if o.published == [] then o.state.latest == s.latest
      else
        var img := o.published[|o.published| - 1];
        Labelled(infer(img).boxes, infer(img).names) && o.state.latest == Some(Published(infer, img))
    decreases |s.backlog|
  {
    if s.running && s.backlog[0].Some? {
      var img := s.backlog[0].value;
      FilterFailsOnFirstUnlabelled(infer(img).boxes, infer(img).names, Whitelist);
      match Iterate(s, infer)
      case Halt(t, exit, published) =>
      case Continue(t, img) =>
        assert s.backlog == [Some(img)] + t.backlog;
        RunLastWriteWins(t, infer);
    }
  }

  /** `task_done` is called once for each published task: the unfinished counter drops
      by the number of published tasks, except for the one whose `task_done` failed. */
  lemma {:induction false} RunAcknowledgesEachTask(s: State, infer: Image -> InferenceResult)
    requires s.running ==> None in s.backlog
    ensures var o := Run(s, infer);
      o.state.unfinished + |o.published| == s.unfinished + (if o.exit == TaskDoneError then 1 else 0)
      && (o.exit == TaskDoneError ==> o.state.unfinished == 0)
    decreases |s.backlog|
  {
    if s.running {
      match Iterate(s, infer)
      case Halt(t, exit, published) =>
      case Continue(t, img) =>
        assert s.backlog == [Some(img)] + t.backlog;
        RunAcknowledgesEachTask(t, infer);
    }
  }

  /** A running worker that meets a sentinel queued while it runs (put there by
      `add_task(None)`, or standing for the sentinel a blocked `get` receives): when
      the tasks ahead of the first sentinel all have labelled results and each was
      counted by its `put`, the loop processes exactly those tasks, in order, consumes
      the sentinel and leaves every item behind it queued. This is not what follows
      stop_processing, which clears `running` first (see StopLeavesQueuedTasks). */
  lemma {:induction false} RunDrainsUpToSentinel(s: State, infer: Image -> InferenceResult, tasks: seq<Image>)
    requires s.running
    requires |tasks| < |s.backlog| && s.backlog[|tasks|] == None
    requires forall k :: 0 <= k < |tasks| ==> s.backlog[k] == Some(tasks[k])
    requires forall k :: 0 <= k < |tasks| ==> Labelled(infer(tasks[k]).boxes, infer(tasks[k]).names)
    requires |tasks| <= s.unfinished
    ensures var o := Run(s, infer);
      o.exit == Sentinel && o.published == tasks && o.state.backlog == s.backlog[|tasks| + 1..]
      && o.state.unfinished == s.unfinished - |tasks|
    decreases |s.backlog|
  {
    if tasks != [] {
      var img := tasks[0];
      FilterFailsOnFirstUnlabelled(infer(img).boxes, infer(img).names, Whitelist);
      var it := Iterate(s, infer);
      assert it.Continue?;
      var t := it.next;
      assert s.backlog == [Some(img)] + t.backlog;
      assert t.backlog[|tasks| - 1] == None;
      RunDrainsUpToSentinel(t, infer, tasks[1..]);
      assert t.backlog[|tasks|..] == s.backlog[|tasks| + 1..];
    }
  }

  /** The worker's error exit: when the tasks ahead of the first sentinel are
      counted by their `put`s and task `j` is the first whose result has an
      unlabelled class index, the loop publishes exactly the tasks before it, ends
      with the `KeyError` of that task's first unlabelled box, and leaves every item
      after that task queued, the sentinel included. */
  lemma {:induction false} RunStopsAtFirstUnlabelled(s: State, infer: Image -> InferenceResult, tasks: seq<Image>, j: nat)
    requires s.running
    requires |tasks| < |s.backlog| && s.backlog[|tasks|] == None
    requires forall k :: 0 <= k < |tasks| ==> s.backlog[k] == Some(tasks[k])
    requires j < |tasks| && !Labelled(infer(tasks[j]).boxes, infer(tasks[j]).names)
    requires forall k :: 0 <= k < j ==> Labelled(infer(tasks[k]).boxes, infer(tasks[k]).names)
    requires j <= s.unfinished
    ensures var o, f := Run(s, infer), Filter(infer(tasks[j]).boxes, infer(tasks[j]).names, Whitelist);
      f.MissingLabel? && o.exit == LabelError(f.classIdx)
      && o.published == tasks[..j] && o.state.backlog == s.backlog[j + 1..]
      && o.state.unfinished == s.unfinished - j
    decreases j
  {
    var img := tasks[0];
    if j == 0 {
      assert Filter(infer(img).boxes, infer(img).names, Whitelist).MissingLabel? by {
        FilterFailsOnFirstUnlabelled(infer(img).boxes, infer(img).names, Whitelist);
      }
    } else {
      assert Filter(infer(img).boxes, infer(img).names, Whitelist).Kept? by {
        FilterFailsOnFirstUnlabelled(infer(img).boxes, infer(img).names, Whitelist);
      }
      var it := Iterate(s, infer);
      assert it.Continue?;
      var t := it.next;
      assert s.backlog == [Some(img)] + t.backlog;
      assert t.backlog[|tasks| - 1] == None;
      RunStopsAtFirstUnlabelled(t, infer, tasks[1..], j - 1);
      assert tasks[1..][..j - 1] == tasks[1..j];
      assert t.backlog[j..] == s.backlog[j + 1..];
    }
  }

  /** The state after stop_processing: not running, one sentinel appended. */
  function Stopped(s: State): (t: State)
    ensures !t.running && t.backlog == s.backlog + [None] && None in t.backlog
  {
    assert (s.backlog + [None])[|s.backlog|] == None;
    s.(running := false, backlog := s.backlog + [None], unfinished := s.unfinished + 1)
  }

  /** A worker that reaches its `running` check after stop_processing takes nothing
      more: the tasks still queued, and the sentinel, stay in the backlog. */
  lemma StopLeavesQueuedTasks(s: State, infer: Image -> InferenceResult)
    ensures var o := Run(Stopped(s), infer);
      o.exit == NotRunning && o.taken == 0 && o.published == []
      && o.state.backlog == s.backlog + [None] && o.state.latest == s.latest
  {
  }

  /** The module globals of process.py and the functions that act on them. */
  class Processor {
    var backlog: seq<Option<Image>>
    var unfinished: nat
    var running: bool
    var latestResult: Option<seq<Box>>

    ghost function Snapshot(): State
      reads this
    {
      State(backlog, unfinished, running, latestResult)
    }

    /** The state at import: an empty backlog, running, and no result yet. */
    constructor ()
      ensures backlog == [] && unfinished == 0 && running && latestResult == None
    {
      backlog := [];
      unfinished := 0;
      running := true;
      latestResult := None;
    }

    /** add_task: puts the task at the back of the unbounded backlog; never rejects. */
    method AddTask(task: Option<Image>)
      modifies this
      ensures backlog == old(backlog) + [task] && unfinished == old(unfinished) + 1
      ensures running == old(running) && latestResult == old(latestResult)
    {
      backlog := backlog + [task];
      unfinished := unfinished + 1;
    }

    /** get_task: the oldest item, removed from the backlog. A non-blocking or timed
        get on an empty backlog yields `None` and changes nothing; a blocking get
        without timeout must find an item, and a timeout must not be negative. */
    method GetTask(block: bool, timeout: Option<real>) returns (task: Option<Image>)
      requires block && timeout.None? ==> backlog != []
      requires block && timeout.Some? ==> timeout.value >= 0.0
      modifies this
      ensures old(backlog) == [] ==> task == None && backlog == []
      ensures old(backlog) != [] ==> task == old(backlog)[0] && backlog == old(backlog)[1..]
      ensures unfinished == old(unfinished) && running == old(running) && latestResult == old(latestResult)
    {
      if backlog == [] {
        task := None;
      } else {
        task := backlog[0];
        backlog := backlog[1..];
      }
    }

    /** task_done: marks one taken task finished; raises `ValueError` (here `ok` is
        false) when no task is unfinished. */
    method TaskDone() returns (ok: bool)
      modifies this
      ensures ok == (old(unfinished) > 0)
      ensures unfinished == if ok then old(unfinished) - 1 else old(unfinished)
      ensures backlog == old(backlog) && running == old(running) && latestResult == old(latestResult)
    {
      ok := unfinished > 0;
      if ok {
        unfinished := unfinished - 1;
      }
    }

    /** stop_processing: clears `running` and puts one sentinel behind every queued task. */
    method StopProcessing()
      modifies this
      ensures Snapshot() == Stopped(old(Snapshot()))
    {
      running := false;
      AddTask(None);
    }

    /** get_latest_bounding_boxes: the latest published rows, or `None` before any. */
    method GetLatestBoundingBoxes() returns (r: Option<seq<Box>>)
      ensures r == latestResult
    {
      r := latestResult;
    }

    /** process_backlog: while running, takes the oldest task, stops on the sentinel,
        filters the task's inference result with the fixed whitelist, overwrites
        `latest_result` and marks the task done. */
    method ProcessBacklog(infer: Image -> InferenceResult) returns (exit: Exit)
      requires running ==> None in backlog
      modifies this
      ensures Snapshot() == Run(old(Snapshot()), infer).state
      ensures exit == Run(old(Snapshot()), infer).exit
    {
      exit := NotRunning;
      while running
        invariant running == old(running)
        invariant running ==> None in backlog
        invariant Run(Snapshot(), infer).state == Run(old(Snapshot()), infer).state
        invariant Run(Snapshot(), infer).exit == Run(old(Snapshot()), infer).exit
        decreases |backlog|
      {
        ghost var before := Snapshot();
        var task := GetTask(true, None);
        if task == None {
          exit := Sentinel;
          return;
        }
        var result := infer(task.value);
        var boxes := FilterBoundingBoxes(result, Whitelist);
        if boxes.MissingLabel? {
          exit := LabelError(boxes.classIdx);
          return;
        }
        latestResult := Some(boxes.rows);
        var ok := TaskDone();
        if !ok {
          exit := TaskDoneError;
          return;
        }
        assert Iterate(before, infer) == Continue(Snapshot(), task.value);
      }
    }
  }
}
