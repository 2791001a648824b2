/**
 * The restart loop of `extract_frames`: every task of the deposit's flow
 * whose name contains `ExtractFramesTask` is restarted, in the flow's order.
 */
module FrameTasks {

  /** The name fragment that identifies a frame-extraction task. */
  const ExtractFramesFragment: string := "ExtractFramesTask"

  /** A task of a flow, as far as the restart loop looks at it. */
  datatype Task = Task(id: nat, name: string)

  /** `frag` occurs in `s` starting at position `i`. */
  predicate OccursAt(frag: string, s: string, i: nat)
  {
    i + |frag| <= |s| && s[i..i + |frag|] == frag
  }

  /** Python's `frag in s` on strings, by scanning `s` from the left. */
  predicate Contains(s: string, frag: string)
    decreases |s|
  {
    if |s| < |frag| then false
    else if s[..|frag|] == frag then true
    else Contains(s[1..], frag)
  }

  /** The scan finds `frag` exactly when it occurs somewhere in `s`. */
  lemma {:induction false} ContainsIffOccurs(s: string, frag: string)
    ensures Contains(s, frag) <==> exists i: nat :: OccursAt(frag, s, i)
    decreases |s|
  {
    if |s| < |frag| {
    } else if s[..|frag|] == frag {
      assert OccursAt(frag, s, 0);
    } else {
      ContainsIffOccurs(s[1..], frag);
      if Contains(s[1..], frag) {
        var i: nat :| OccursAt(frag, s[1..], i);
        assert s[1..][i..i + |frag|] == s[i + 1..i + 1 + |frag|];
        assert OccursAt(frag, s, i + 1);
      }
      if exists i: nat :: OccursAt(frag, s, i) {
        var i: nat :| OccursAt(frag, s, i);
        assert i != 0;
        assert s[1..][i - 1..i - 1 + |frag|] == s[i..i + |frag|];
        assert OccursAt(frag, s[1..], i - 1);
      }
    }
  }

  /** The test the loop applies to each task. */
  predicate IsExtractFrames(t: Task)
  {
    Contains(t.name, ExtractFramesFragment)
  }

  /** The tasks the loop restarts, in order, for a flow whose tasks are `tasks`. */
  function ExtractFramesTasks(tasks: seq<Task>): (r: seq<Task>)
  {
    if tasks == [] then []
    else
      var last := tasks[|tasks| - 1];
      ExtractFramesTasks(tasks[..|tasks| - 1]) + (if IsExtractFrames(last) then [last] else [])
  }

  /** A task is restarted exactly when it belongs to the flow and its name has the fragment. */
  lemma {:induction false} ExtractFramesTasksMembers(tasks: seq<Task>, t: Task)
    ensures t in ExtractFramesTasks(tasks) <==> t in tasks && IsExtractFrames(t)
  {
    if tasks != [] {
      var init := tasks[..|tasks| - 1];
      ExtractFramesTasksMembers(init, t);
      assert tasks == init + [tasks[|tasks| - 1]];
    }
  }

  /** Tasks whose names lack the fragment are never restarted, and matching ones keep their count. */
  lemma {:induction false} ExtractFramesTasksCount(tasks: seq<Task>, t: Task)
    ensures multiset(ExtractFramesTasks(tasks))[t] == if IsExtractFrames(t) then multiset(tasks)[t] else 0
  {
    if tasks != [] {
      var init := tasks[..|tasks| - 1];
      ExtractFramesTasksCount(init, t);
      assert tasks == init + [tasks[|tasks| - 1]];
    }
  }

  /**
   * `for t in flow.tasks: if 'ExtractFramesTask' in t.name: flow.restart_task(t)`.
   * The restart requests are returned in the order they are made.
   */
  method RestartExtractFrames(tasks: seq<Task>) returns (restarted: seq<Task>)
    ensures restarted == ExtractFramesTasks(tasks)
  {
    restarted := [];
    var i := 0;
    while i < |tasks|
      invariant 0 <= i <= |tasks|
      invariant restarted == ExtractFramesTasks(tasks[..i])
    {
      var t := tasks[i];
      assert tasks[..i + 1][..i] == tasks[..i];
      if Contains(t.name, ExtractFramesFragment) {
        restarted := restarted + [t];
      }
      i := i + 1;
    }
    assert tasks[..i] == tasks;
  }
}
