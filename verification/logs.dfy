/**
 * Derived views over the log list: the logs of one task, the task's last activity,
 * and the newest-first ordering the detail view and the export both display.
 */
module Logs {
  import opened Wrappers
  import opened Types
  import Seqs

  /** The predicate "this log belongs to the task with id `id`" (ids compared as strings). */
  function ForTask(id: string): TaskLog -> bool {
    (l: TaskLog) => l.taskId == id
  }

  /**
   * The logs of one task, in their stored order: a subsequence of the list holding each
   * of the task's logs as often as the list does, and nothing else.
   */
  function LogsFor(logs: seq<TaskLog>, id: string): (r: seq<TaskLog>)
    ensures forall l :: l in r <==> l in logs && l.taskId == id
    ensures forall i :: 0 <= i < |r| ==> r[i].taskId == id
    ensures Seqs.SubsequenceOf(r, logs)
    ensures forall l :: multiset(r)[l] == if l.taskId == id then multiset(logs)[l] else 0
  {
    Seqs.FilterIsSubsequence(ForTask(id), logs);
    Seqs.FilterMultiset(ForTask(id), logs);
    Seqs.Filter(ForTask(id), logs)
  }

  /** The largest timestamp in a non-empty list of logs (`Math.max(...timestamps)`). */
  function MaxTimestamp(s: seq<TaskLog>): (r: int)
    requires |s| > 0
    ensures exists i :: 0 <= i < |s| && s[i].timestamp == r
    ensures forall i :: 0 <= i < |s| ==> s[i].timestamp <= r
  {
    if |s| == 1 then s[0].timestamp
    else
      var rest := MaxTimestamp(s[1..]);
      assert forall i :: 1 <= i < |s| ==> s[i] == s[1..][i - 1];
      if s[0].timestamp >= rest then s[0].timestamp else rest
  }

  /**
   * When the task was last acted on: the newest timestamp among its logs, or its
   * creation time when it has none.
   */
  function LastActivity(task: Task, logs: seq<TaskLog>): (r: int)
    ensures (forall l :: l in logs ==> l.taskId != task.id) ==> r == task.createdAt
    ensures (exists l :: l in logs && l.taskId == task.id) ==>
              && (exists l :: l in logs && l.taskId == task.id && l.timestamp == r)
              && (forall l :: l in logs && l.taskId == task.id ==> l.timestamp <= r)
  {
    var own := LogsFor(logs, task.id);
    if |own| > 0 then
      var r := MaxTimestamp(own);
      assert forall l :: l in own ==> l.timestamp <= r by {
        forall l | l in own ensures l.timestamp <= r {
          var i :| 0 <= i < |own| && own[i] == l;
        }
      }
      r
    else
      task.createdAt
  }

  /** A time that one of the task's logs carries and none exceeds is its last activity. */
  lemma ActivityIsTheMaximum(task: Task, logs: seq<TaskLog>, m: TaskLog)
    requires m in logs && m.taskId == task.id
    requires forall l :: l in logs && l.taskId == task.id ==> l.timestamp <= m.timestamp
    ensures LastActivity(task, logs) == m.timestamp
  {
  }

  /** Timestamps never increase along the list. */
  predicate NewestFirst(s: seq<TaskLog>) {
    forall i, j :: 0 <= i < j < |s| ==> s[i].timestamp >= s[j].timestamp
  }

  /** In a newest-first list the head is at least as new as every element. */
  lemma HeadIsNewest(s: seq<TaskLog>)
    requires NewestFirst(s) && |s| > 0
    ensures forall l :: l in s ==> l.timestamp <= s[0].timestamp
  {
    forall l | l in s ensures l.timestamp <= s[0].timestamp {
      var k :| 0 <= k < |s| && s[k] == l;
    }
  }

  /** The rest of a newest-first list is newest first. */
  lemma TailNewest(s: seq<TaskLog>)
    requires NewestFirst(s) && |s| > 0
    ensures NewestFirst(s[1..])
  {
    forall i, j | 0 <= i < j < |s| - 1 ensures s[1..][i].timestamp >= s[1..][j].timestamp {
      assert s[1..][i] == s[i + 1] && s[1..][j] == s[j + 1];
    }
  }

  /** A log at least as new as every element of a newest-first list may go in front. */
  lemma ConsNewest(h: TaskLog, s: seq<TaskLog>)
    requires NewestFirst(s) && forall l :: l in s ==> l.timestamp <= h.timestamp
    ensures NewestFirst([h] + s)
  {
    var r := [h] + s;
    forall i, j | 0 <= i < j < |r| ensures r[i].timestamp >= r[j].timestamp {
      assert r[j] == s[j - 1];
      if i == 0 {
        assert r[j] in s;
      } else {
        assert r[i] == s[i - 1];
      }
    }
  }

  /** Whatever is in `s` plus one `x` is in `s` or is `x`. */
  lemma MultisetAddMembers<T>(r: seq<T>, s: seq<T>, x: T)
    requires multiset(r) == multiset(s) + multiset{x}
    ensures forall l :: l in r ==> l in s || l == x
  {
    forall l | l in r ensures l in s || l == x {
      assert l in multiset(r);
    }
  }

  /** Places `x` ahead of the first log that is not newer than it. */
  function Insert(x: TaskLog, s: seq<TaskLog>): (r: seq<TaskLog>)
    requires NewestFirst(s)
    ensures NewestFirst(r)
    ensures multiset(r) == multiset(s) + multiset{x}
    ensures |r| == |s| + 1
  {
    if |s| == 0 then [x]
    else if s[0].timestamp <= x.timestamp then
      HeadIsNewest(s);
      ConsNewest(x, s);
      [x] + s
    else
      var tail := s[1..];
      TailNewest(s);
      HeadIsNewest(s);
      var rest := Insert(x, tail);
      assert multiset(s) == multiset{s[0]} + multiset(tail) by {
        assert s == [s[0]] + tail;
      }
      MultisetAddMembers(rest, tail, x);
      assert forall l :: l in tail ==> l in s;
      ConsNewest(s[0], rest);
      [s[0]] + rest
  }

  /**
   * `[...logs].sort((a, b) => b.timestamp - a.timestamp)`: the same logs, newest first.
   * The sort is stable, as JavaScript's is (see SortIsStable); the input is a value and
   * is left as it was.
   */
  function SortNewestFirst(s: seq<TaskLog>): (r: seq<TaskLog>)
    ensures NewestFirst(r)
    ensures multiset(r) == multiset(s)
    ensures |r| == |s|
  {
    if |s| == 0 then []
    else
      assert s == [s[0]] + s[1..];
      Insert(s[0], SortNewestFirst(s[1..]))
  }

  /** The predicate "this log carries timestamp `t`". */
  function AtTime(t: int): TaskLog -> bool {
    (l: TaskLog) => l.timestamp == t
  }

  lemma {:induction false} InsertKeepsTies(x: TaskLog, s: seq<TaskLog>, t: int)
    requires NewestFirst(s)
    ensures Seqs.Filter(AtTime(t), Insert(x, s)) ==
            (if x.timestamp == t then [x] else []) + Seqs.Filter(AtTime(t), s)
    decreases |s|
  {
    var p := AtTime(t);
    if |s| == 0 {
      Seqs.FilterCons(p, x, []);
      assert Insert(x, s) == [x] + [];
    } else if s[0].timestamp <= x.timestamp {
      assert Insert(x, s) == [x] + s;
      Seqs.FilterCons(p, x, s);
    } else {
      var rest := Insert(x, s[1..]);
      assert Insert(x, s) == [s[0]] + rest;
      InsertKeepsTies(x, s[1..], t);
      TieBehindNewer(x, s[0], s[1..], rest, t);
      assert [s[0]] + s[1..] == s;
    }
  }

  /** The step of InsertKeepsTies where `x` goes behind a strictly newer head `y`. */
  lemma TieBehindNewer(x: TaskLog, y: TaskLog, tail: seq<TaskLog>, rest: seq<TaskLog>, t: int)
    requires y.timestamp > x.timestamp
    requires Seqs.Filter(AtTime(t), rest) ==
             (if x.timestamp == t then [x] else []) + Seqs.Filter(AtTime(t), tail)
    ensures Seqs.Filter(AtTime(t), [y] + rest) ==
            (if x.timestamp == t then [x] else []) + Seqs.Filter(AtTime(t), [y] + tail)
  {
    var p := AtTime(t);
    Seqs.FilterCons(p, y, rest);
    Seqs.FilterCons(p, y, tail);
    if x.timestamp == t {
      assert !p(y);
    } else if p(y) {
      assert Seqs.Filter(p, [y] + rest) == [y] + Seqs.Filter(p, tail);
    }
  }

  /** Logs with equal timestamps keep their relative order. */
  lemma {:induction false} SortIsStable(s: seq<TaskLog>, t: int)
    ensures Seqs.Filter(AtTime(t), SortNewestFirst(s)) == Seqs.Filter(AtTime(t), s)
    decreases |s|
  {
    if |s| > 0 {
      SortIsStable(s[1..], t);
      InsertKeepsTies(s[0], SortNewestFirst(s[1..]), t);
    }
  }

  /** The first log of a task's newest-first list is its last activity. */
  lemma NewestLogIsLastActivity(task: Task, logs: seq<TaskLog>)
    requires exists l :: l in logs && l.taskId == task.id
    ensures |SortNewestFirst(LogsFor(logs, task.id))| > 0
    ensures SortNewestFirst(LogsFor(logs, task.id))[0].timestamp == LastActivity(task, logs)
  {
    var own := LogsFor(logs, task.id);
    var sorted := SortNewestFirst(own);
    var last := LastActivity(task, logs);
    var l :| l in logs && l.taskId == task.id && l.timestamp == last;
    assert l in multiset(sorted);
    var k :| 0 <= k < |sorted| && sorted[k] == l;
    assert sorted[0] in multiset(own);
    assert sorted[0].timestamp >= sorted[k].timestamp;
  }
}
