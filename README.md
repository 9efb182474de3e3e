# Detection post-processing and backlog worker of a Raspberry Pi security camera

This project models, in Dafny, the part of the camera server that turns detector
output into published bounding boxes:

- `utils.dfy` (module `Utils`, from `utils.py`): the class whitelist filter
  `filterBoundingBoxes` and the largest-box choice `getLargestBoundingBox`. A detection
  result is a sequence of `(class index, xywh row)` pairs plus the `names` map from class
  index to label. Both operations are loops in the source and are methods with loop
  invariants here; the filter is also given as the function `Filter`, about which the
  lemmas are stated.
- `process.dfy` (module `Process`, from `process.py`): the worker's module state (the
  FIFO `backlog`, the queue's unfinished-task counter, the `running` flag and the
  `latest_result` slot) as the class `Processor`, whose methods are `add_task`,
  `get_task`, `task_done`, `stop_processing`, `get_latest_bounding_boxes` and the
  `process_backlog` loop. The loop is proved equal to the function `Run`, and the
  lemmas about `Run` state FIFO order, the cut-off at the first `None` sentinel,
  last-write-wins on `latest_result` and one `task_done` per published task.
- `wrappers.dfy`: `Option`, standing for Python's `None`.

Behaviour of the code that the model keeps:

- The backlog is an unbounded `queue.Queue`, so `AddTask` never rejects.
- `process_backlog` has no `try`/`except`. A `KeyError` from the filter, raised when a
  class index has no label, ends the worker thread. So does a `ValueError` from
  `task_done`. The model records these as `Exit.LabelError` and `Exit.TaskDoneError`.
- The label lookup comes before the empty-whitelist test (utils.py:20-22). An unlabelled
  class index therefore fails even when the whitelist is empty.
- The worker's whitelist is the constant `["person", "bear"]`.
- `stop_processing` may run while tasks are still queued. If the worker then reaches its
  `while running` check, those tasks and the sentinel stay in the backlog unprocessed.

## Model

| member | source | states |
|---|---|---|
| `Utils.Filter` | utils.py:16-24 | the filter never produces more rows than there are boxes |
| `Utils.FilterBoundingBoxes` | utils.py:16-24 | the loop's result is the filter function's: the kept rows, or the first missing label |
| `Utils.FilterFailureIsFinal` | utils.py:18-20 | once a box's label lookup fails, the walk's outcome is that failure |
| `Utils.FilterFailsOnFirstUnlabelled` | utils.py:19-20 | filtering fails iff some class index has no label, and reports the first such index |
| `Utils.KeptIndicesExact` | utils.py:18-23 | box i is kept exactly when its label is whitelisted or the whitelist is empty; kept indices are in range and strictly increasing |
| `Utils.FilterSelectsKeptRows` | utils.py:17-24 | on labelled boxes the output is the unchanged xywh rows of the kept boxes, in their original order, one per kept index |
| `Utils.FilterKeepsAllWithEmptyWhitelist` | utils.py:22-23 | an empty whitelist keeps every row, unchanged and in order |
| `Utils.GetLargestBoundingBox` | utils.py:28-40 | returns a box whose area is positive and at least every box's area, the earliest one on ties; returns the zero default exactly when no box has positive area |
| `Process.Processor.constructor` | process.py:6-8 | the initial state: empty backlog, `running` true, no latest result |
| `Process.Processor.AddTask` | process.py:10-12 | appends the task at the back, never rejects, counts it as unfinished |
| `Process.Processor.GetTask` | process.py:14-19 | removes and returns the oldest item; on an empty backlog a non-blocking or timed get yields `None` and leaves the backlog as it was |
| `Process.Processor.TaskDone` | process.py:21-23 | decrements the unfinished count, failing when it is zero |
| `Process.Processor.StopProcessing` | process.py:25-30 | clears `running` and appends exactly one `None` behind the queued tasks |
| `Process.Stopped` | process.py:28-30 | the state after a stop is not running and holds a sentinel |
| `Process.Processor.GetLatestBoundingBoxes` | process.py:52-55 | returns `latest_result` and changes nothing |
| `Process.Processor.ProcessBacklog` | process.py:35-50 | the loop ends in the state and with the exit that `Run` gives |
| `Process.Run` | process.py:35-50 | the loop as a function of the state: it takes at most every queued item, and publishes at most one task per item taken |
| `Process.Published` | process.py:45-46 | the rows written to `latest_result` for a task are the unchanged rows of exactly the boxes labelled "person" or "bear", in their original order |
| `Process.Iterate` | process.py:39-50 | one loop pass takes exactly the front item, leaves `running` alone, and either continues after acknowledging the task it took or ends with at most that one task published |
| `Process.RunTakesFromFront` | process.py:38-41 | the loop removes items only from the front and leaves everything behind them queued; it takes one item per published task plus the sentinel or the task whose filter failed |
| `Process.RunPublishesInOrder` | process.py:38-41 | published tasks are the front items of the backlog in FIFO order; a loop ending on the sentinel ends on the first `None` |
| `Process.RunKeepsRunningFlag` | process.py:38 | the loop never changes `running`, and ends through its `running` check exactly when it starts not running |
| `Process.RunLastWriteWins` | process.py:44-48 | `latest_result` ends as the filtered result of the last published task, or unchanged if none was published |
| `Process.RunAcknowledgesEachTask` | process.py:46-50 | `task_done` is called once per published task |
| `Process.RunDrainsUpToSentinel` | process.py:38-50 | for a running worker that meets a sentinel (queued by `add_task(None)`, or standing for the one a blocked get receives), with labelled results the loop publishes exactly the tasks ahead of the first sentinel, consumes it and leaves the rest queued |
| `Process.RunStopsAtFirstUnlabelled` | process.py:39-46 | when task j is the first whose result has an unlabelled class index, the loop publishes exactly the tasks before it, ends with the `KeyError` of that task's first unlabelled box, and leaves every later item queued |
| `Process.StopLeavesQueuedTasks` | process.py:28-30 | a worker reaching its `running` check after a stop takes nothing more; queued tasks and the sentinel stay queued |

## Left out

- `MODEL`, `setModelName` and `getInference` (utils.py:1-14): loading and running the YOLO model is a foreign library call. Inference under the loaded model is the function parameter `infer`, which always returns a result; a detector that raises is not modelled.
- Tensors and floating point: coordinates, widths, heights and areas are integers, and the class index is already an integer (the `int(...)` of utils.py:19 is not modelled).
- Threads: `start_processing`, the daemon thread started at import, and `join(timeout=2)` in `stop_processing` (process.py:31-33, 57-64) are not modelled. The worker loop runs sequentially.
- Process.Processor.ProcessBacklog: requires a sentinel already queued while `running` is true. A blocking get on an empty backlog never returns, so the worker idling between tasks is not modelled. A stop that arrives while the worker waits in `get` is not modelled either. Stops are modelled only where the worker checks `running`.
- Process.Processor.GetTask: requires a non-empty backlog for a blocking get without timeout, and a non-negative timeout for a blocking get; a negative timeout raises `ValueError` in `queue.Queue.get`. The length of a timeout is not modelled.
- capture.py (camera capture and JPEG encoding), main.py (interactive prompts and server start) and src/server.py (the web routes): input/output outside the worker.
