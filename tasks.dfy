/** The task list as a value: the task record, the derived views the page
    renders (filtered list, counts, progress percentage) and, for each mutation
    of the store, the list it leaves behind. The class in module TaskStore
    applies these to its state; the properties of the page's operations are
    proved here, once, about these functions. */
module Tasks {
  import opened JsString

  /** One to-do entry. `createdAt` is the ISO timestamp string taken from the
      clock at creation; the model never looks inside it. */
  datatype Task = Task(id: int, text: string, completed: bool, createdAt: string)

  datatype Option<T> = None | Some(value: T)

  /** The three views the filter buttons select; any other value shows all. */
  const ActiveFilter: string := "active"
  const CompletedFilter: string := "completed"
  const AllFilter: string := "all"

  /** No two tasks of the list share an id. */
  ghost predicate UniqueIds(ts: seq<Task>) {
    forall i, j :: 0 <= i < j < |ts| ==> ts[i].id != ts[j].id
  }

  /** Every id in the list is below `bound` (the next id the counter hands out). */
  ghost predicate IdsBelow(ts: seq<Task>, bound: int) {
    forall k :: 0 <= k < |ts| ==> ts[k].id < bound
  }

  /** `xs` is `ys` with some elements left out, the rest kept in order. */
  ghost predicate SubsequenceOf(xs: seq<Task>, ys: seq<Task>)
    decreases |ys|
  {
    if xs == [] then true
    else if ys == [] then false
    else if xs[0] == ys[0] then SubsequenceOf(xs[1..], ys[1..])
    else SubsequenceOf(xs, ys[1..])
  }

  /** The set of ids in a list. */
  ghost function IdSet(ts: seq<Task>): set<int> {
    set t | t in ts :: t.id
  }

  // ---------------------------------------------------------------------------
  // Subsequences

  /** Every list is a subsequence of itself. */
  lemma {:induction false} SubsequenceOfSelf(ts: seq<Task>)
    ensures SubsequenceOf(ts, ts)
  {
    if ts != [] { SubsequenceOfSelf(ts[1..]); }
  }

  /** A subsequence holds only elements of the list it was taken from. */
  lemma {:induction false} SubsequenceMembers(xs: seq<Task>, ys: seq<Task>)
    requires SubsequenceOf(xs, ys)
    ensures forall x :: x in xs ==> x in ys
    decreases |ys|
  {
    if xs != [] {
      if xs[0] == ys[0] {
        SubsequenceMembers(xs[1..], ys[1..]);
        forall x | x in xs ensures x in ys {
          if x != xs[0] { assert x in xs[1..]; }
        }
      } else {
        SubsequenceMembers(xs, ys[1..]);
      }
    }
  }

  /** Leaving tasks out keeps ids unique and below any bound they were below. */
  lemma {:induction false} SubsequenceKeepsIds(xs: seq<Task>, ys: seq<Task>, bound: int)
    requires SubsequenceOf(xs, ys)
    requires UniqueIds(ys) && IdsBelow(ys, bound)
    ensures UniqueIds(xs) && IdsBelow(xs, bound)
    decreases |ys|
  {
    SubsequenceMembers(xs, ys);
    forall k | 0 <= k < |xs| ensures xs[k].id < bound {
      assert xs[k] in xs;
    }
    if xs != [] {
      if xs[0] == ys[0] {
        SubsequenceKeepsIds(xs[1..], ys[1..], bound);
        SubsequenceMembers(xs[1..], ys[1..]);
        forall j | 0 < j < |xs| ensures xs[0].id != xs[j].id {
          assert xs[j] in xs[1..];
          var k :| 0 <= k < |ys[1..]| && ys[1..][k] == xs[j];
          assert ys[k + 1] == xs[j];
        }
      } else {
        SubsequenceKeepsIds(xs, ys[1..], bound);
      }
    }
  }

  /** A task numbered with the bound goes in front without breaking either id
      invariant, and the bound moves past it. */
  lemma PrependKeepsIds(ts: seq<Task>, t: Task)
    requires UniqueIds(ts) && IdsBelow(ts, t.id)
    ensures UniqueIds([t] + ts) && IdsBelow([t] + ts, t.id + 1)
  {
    var us := [t] + ts;
    forall j | 0 < j < |us| ensures us[0].id != us[j].id {
      assert us[j] == ts[j - 1] && ts[j - 1] in ts;
    }
  }

  /** Lists with the same ids position by position agree on both id invariants. */
  lemma SameIdsKeepIds(xs: seq<Task>, ys: seq<Task>, bound: int)
    requires |xs| == |ys| && forall k :: 0 <= k < |xs| ==> xs[k].id == ys[k].id
    requires UniqueIds(ys) && IdsBelow(ys, bound)
    ensures UniqueIds(xs) && IdsBelow(xs, bound)
  {
  }

  // ---------------------------------------------------------------------------
  // getFilteredTasks and the counts of updateStats / updateProgress

  /** `ts.filter(task => task.completed == done)`: the tasks with that status,
      every one of them, and nothing else. */
  function WithStatus(ts: seq<Task>, done: bool): (r: seq<Task>)
    ensures |r| <= |ts|
    ensures forall t :: t in r ==> t in ts && t.completed == done
    ensures forall t :: t in ts && t.completed == done ==> t in r
  {
    if ts == [] then []
    else
      var rest := WithStatus(ts[1..], done);
      assert forall t :: t in ts ==> t == ts[0] || t in ts[1..];
      (if ts[0].completed == done then [ts[0]] else []) + rest
  }

  /** Both status views are order-preserving subsequences of the list. */
  lemma {:induction false} WithStatusIsSubsequence(ts: seq<Task>, done: bool)
    ensures SubsequenceOf(WithStatus(ts, done), ts)
  {
    if ts != [] {
      WithStatusIsSubsequence(ts[1..], done);
      var r := WithStatus(ts, done);
      if ts[0].completed == done {
        assert r[0] == ts[0] && r[1..] == WithStatus(ts[1..], done);
      } else {
        assert r == WithStatus(ts[1..], done);
      }
    }
  }

  /** The active and the completed view split the list: together they hold
      every task exactly as often as the list does, so their lengths add up. */
  lemma {:induction false} StatusPartition(ts: seq<Task>)
    ensures multiset(WithStatus(ts, false)) + multiset(WithStatus(ts, true)) == multiset(ts)
    ensures |WithStatus(ts, false)| + |WithStatus(ts, true)| == |ts|
  {
    if ts != [] {
      StatusPartition(ts[1..]);
      assert ts == [ts[0]] + ts[1..];
    }
  }

  /** Seen as sets of ids, the active and the completed view are disjoint and
      together give the ids of the whole list. */
  lemma StatusIdsPartition(ts: seq<Task>)
    requires UniqueIds(ts)
    ensures IdSet(WithStatus(ts, false)) * IdSet(WithStatus(ts, true)) == {}
    ensures IdSet(WithStatus(ts, false)) + IdSet(WithStatus(ts, true)) == IdSet(ts)
  {
    var a, c := WithStatus(ts, false), WithStatus(ts, true);
    forall x, y | x in a && y in c ensures x.id != y.id {
      var i :| 0 <= i < |ts| && ts[i] == x;
      var j :| 0 <= j < |ts| && ts[j] == y;
      assert ts[i].completed != ts[j].completed;
    }
    forall id | id in IdSet(ts) ensures id in IdSet(a) + IdSet(c) {
      var x :| x in ts && x.id == id;
      if x.completed { assert x in c; } else { assert x in a; }
    }
  }

  /** `getFilteredTasks`: the list itself for any filter other than 'active'
      and 'completed', otherwise the tasks with that status, in list order. */
  function FilteredView(ts: seq<Task>, filter: string): (r: seq<Task>)
    ensures SubsequenceOf(r, ts)
    ensures filter == ActiveFilter ==> forall t :: t in ts ==> (t in r <==> !t.completed)
    ensures filter == CompletedFilter ==> forall t :: t in ts ==> (t in r <==> t.completed)
    ensures filter != ActiveFilter && filter != CompletedFilter ==> r == ts
  {
    WithStatusIsSubsequence(ts, false);
    WithStatusIsSubsequence(ts, true);
    SubsequenceOfSelf(ts);
    if filter == ActiveFilter then WithStatus(ts, false)
    else if filter == CompletedFilter then WithStatus(ts, true)
    else ts
  }

  /** The three numbers `updateStats` shows. */
  datatype Stats = Stats(total: nat, completed: nat, pending: nat)

  /** `updateStats`: total is the list length, completed the length of the
      completed view, pending what is left, which is the length of the active
      view. */
  function StatsOf(ts: seq<Task>): (s: Stats)
    ensures s.total == |ts| && s.completed + s.pending == s.total
    ensures s.completed == |FilteredView(ts, CompletedFilter)|
    ensures s.pending == |FilteredView(ts, ActiveFilter)|
  {
    StatusPartition(ts);
    var total := |ts|;
    var completed := |WithStatus(ts, true)|;
    Stats(total, completed, total - completed)
  }

  /** `Math.round(completed / total * 100)` in integers: round half up, which
      is the nearest integer to 100 * completed / total. */
  function Percentage(completed: nat, total: nat): (p: int)
    requires completed <= total
    ensures 0 <= p <= 100
    ensures total == 0 ==> p == 0
    ensures total > 0 ==> 2 * total * p <= 200 * completed + total < 2 * total * p + 2 * total
    ensures total > 0 && completed == total ==> p == 100
  {
    if total > 0 then
      var p := (200 * completed + total) / (2 * total);
      PercentageBounds(completed, total, p);
      p
    else 0
  }

  /** The arithmetic behind Percentage: the quotient brackets the exact value
      and stays within 0..100. */
  lemma PercentageBounds(completed: nat, total: nat, p: int)
    requires completed <= total && total > 0
    requires p == (200 * completed + total) / (2 * total)
    ensures 2 * total * p <= 200 * completed + total < 2 * total * p + 2 * total
    ensures 0 <= p <= 100
    ensures completed == total ==> p == 100
  {
    var n, d := 200 * completed + total, 2 * total;
    QuotientBrackets(n, d);
    assert n < d * 101;
    QuotientBelow(n, d, 101);
    if completed == total {
      assert d * 100 <= n;
      QuotientAtLeast(n, d, 100);
    }
  }

  /** Euclidean division brackets the dividend between consecutive multiples. */
  lemma QuotientBrackets(n: int, d: int)
    requires d > 0
    ensures d * (n / d) <= n < d * (n / d) + d
  {
    assert n == d * (n / d) + n % d;
  }

  /** A dividend below `d * m` has a quotient below `m`. */
  lemma QuotientBelow(n: int, d: int, m: int)
    requires d > 0 && n < d * m
    ensures n / d < m
  {
    QuotientBrackets(n, d);
    assert d * (m - n / d) > 0;
  }

  /** A dividend at least `d * m` has a quotient at least `m`. */
  lemma QuotientAtLeast(n: int, d: int, m: int)
    requires d > 0 && d * m <= n
    ensures m <= n / d
  {
    var q := n / d;
    QuotientBrackets(n, d);
    if m > q {
      ProductAtLeastFactor(d, m - q);
    }
  }

  /** A positive factor times a whole number of at least one is at least that
      factor. */
  lemma ProductAtLeastFactor(d: int, x: int)
    requires d > 0 && x >= 1
    ensures d * x >= d
  {
    assert d * x == d + d * (x - 1);
  }

  /** `updateProgress`: the percentage of completed tasks, 0 on an empty list. */
  function Progress(ts: seq<Task>): (p: int)
    ensures 0 <= p <= 100
    ensures ts == [] ==> p == 0
    ensures ts != [] && FilteredView(ts, ActiveFilter) == [] ==> p == 100
  {
    var s := StatsOf(ts);
    Percentage(s.completed, s.total)
  }

  /** One task done out of three shows 33%. */
  lemma ProgressOneOfThree(a: Task, b: Task, c: Task)
    requires a.completed && !b.completed && !c.completed
    ensures Progress([a, b, c]) == 33
  {
    assert [a, b, c][1..] == [b, c] && [b, c][1..] == [c];
    assert WithStatus([c], true) == [];
    assert WithStatus([a, b, c], true) == [a];
  }

  // ---------------------------------------------------------------------------
  // The lists each mutation leaves behind

  /** `tasks.find(t => t.id === id)`, as an index: the first task with that id,
      or None when no task has it. */
  function FindIndex(ts: seq<Task>, id: int): (r: Option<nat>)
    ensures r.None? <==> forall k :: 0 <= k < |ts| ==> ts[k].id != id
    ensures r.Some? ==> r.value < |ts| && ts[r.value].id == id &&
                        forall k :: 0 <= k < r.value ==> ts[k].id != id
  {
    if ts == [] then None
    else if ts[0].id == id then Some(0)
    else match FindIndex(ts[1..], id)
      case None => None
      case Some(k) => Some(k + 1)
  }

  /** Lists whose ids agree position by position find the same index. */
  lemma FindIndexSameIds(xs: seq<Task>, ys: seq<Task>, id: int)
    requires |xs| == |ys| && forall k :: 0 <= k < |xs| ==> xs[k].id == ys[k].id
    ensures FindIndex(xs, id) == FindIndex(ys, id)
  {
  }

  /** With unique ids, the task at index `i` is the one found by its id. */
  lemma FindIndexUnique(ts: seq<Task>, i: nat)
    requires UniqueIds(ts) && i < |ts|
    ensures FindIndex(ts, ts[i].id) == Some(i)
  {
    var r := FindIndex(ts, ts[i].id);
    assert r.Some?;
    assert r.value <= i;
    assert ts[r.value].id == ts[i].id;
  }

  /** `deleteTask`'s `tasks.filter(task => task.id !== id)`: no task keeps that
      id, every other task stays, and an id no task has leaves the list as is. */
  function Without(ts: seq<Task>, id: int): (r: seq<Task>)
    ensures forall t :: t in r ==> t in ts && t.id != id
    ensures forall t :: t in ts && t.id != id ==> t in r
    ensures (forall t :: t in ts ==> t.id != id) ==> r == ts
  {
    if ts == [] then []
    else
      var rest := Without(ts[1..], id);
      assert forall t :: t in ts ==> t == ts[0] || t in ts[1..];
      (if ts[0].id != id then [ts[0]] else []) + rest
  }

  /** Deleting keeps the remaining tasks in their original relative order. */
  lemma {:induction false} WithoutIsSubsequence(ts: seq<Task>, id: int)
    ensures SubsequenceOf(Without(ts, id), ts)
  {
    if ts != [] {
      WithoutIsSubsequence(ts[1..], id);
      var r := Without(ts, id);
      if ts[0].id != id {
        assert r[0] == ts[0] && r[1..] == Without(ts[1..], id);
      } else {
        assert r == Without(ts[1..], id);
      }
    }
  }

  /** `toggleTask`: flip `completed` on the first task with that id; an unknown
      id leaves the list as is. */
  function Toggled(ts: seq<Task>, id: int): (r: seq<Task>)
    ensures |r| == |ts|
    ensures forall k :: 0 <= k < |ts| ==>
              r[k].id == ts[k].id && r[k].text == ts[k].text && r[k].createdAt == ts[k].createdAt
  {
    match FindIndex(ts, id)
    case None => ts
    case Some(i) => ts[i := ts[i].(completed := !ts[i].completed)]
  }

  /** With unique ids, toggling flips exactly the task with that id and leaves
      every other task as it was. */
  lemma ToggledExactly(ts: seq<Task>, id: int)
    requires UniqueIds(ts)
    ensures forall k :: 0 <= k < |ts| ==>
              Toggled(ts, id)[k] == if ts[k].id == id then ts[k].(completed := !ts[k].completed) else ts[k]
  {
    forall k | 0 <= k < |ts| && ts[k].id == id {
      FindIndexUnique(ts, k);
    }
  }

  /** Toggling the same id twice restores the list. */
  lemma ToggleTwice(ts: seq<Task>, id: int)
    ensures Toggled(Toggled(ts, id), id) == ts
  {
    FindIndexSameIds(Toggled(ts, id), ts, id);
  }

  /** `editTask`'s `saveEdit`: the text of the task becomes the trimmed input
      when that is non-empty and differs from the current text; otherwise, and
      for an unknown id, the list stays as is. */
  function Edited(ts: seq<Task>, id: int, value: string): (r: seq<Task>)
    ensures |r| == |ts|
    ensures forall k :: 0 <= k < |ts| ==>
              r[k].id == ts[k].id && r[k].completed == ts[k].completed && r[k].createdAt == ts[k].createdAt
    ensures forall k :: 0 <= k < |ts| ==> r[k].text == ts[k].text || (r[k].text == Trim(value) != [])
  {
    match FindIndex(ts, id)
    case None => ts
    case Some(i) =>
      var newText := Trim(value);
      if newText != [] && newText != ts[i].text then ts[i := ts[i].(text := newText)] else ts
  }

  /** With unique ids, saving an edit gives the task with that id the trimmed
      input exactly when that is non-empty and differs from its text, and
      leaves every other task as it was. */
  lemma EditedExactly(ts: seq<Task>, id: int, value: string)
    requires UniqueIds(ts)
    ensures forall k :: 0 <= k < |ts| ==>
              Edited(ts, id, value)[k] ==
                if ts[k].id == id && Trim(value) != [] && Trim(value) != ts[k].text
                then ts[k].(text := Trim(value)) else ts[k]
  {
    forall k | 0 <= k < |ts| && ts[k].id == id {
      FindIndexUnique(ts, k);
    }
  }

  /** Saving the same input twice (Enter, then the blur that follows) is the
      same as saving it once. */
  lemma EditIdempotent(ts: seq<Task>, id: int, value: string)
    ensures Edited(Edited(ts, id, value), id, value) == Edited(ts, id, value)
  {
    FindIndexSameIds(Edited(ts, id, value), ts, id);
  }

  /** Saving the text a task already shows, when that text is trimmed, changes
      nothing. */
  lemma EditWithCurrentText(ts: seq<Task>, i: nat)
    requires i < |ts| && UniqueIds(ts)
    requires Trim(ts[i].text) == ts[i].text
    ensures Edited(ts, ts[i].id, ts[i].text) == ts
  {
    FindIndexUnique(ts, i);
  }

  /** `completeAllTasks`'s `forEach`: every task marked completed. */
  function AllCompleted(ts: seq<Task>): (r: seq<Task>)
    ensures |r| == |ts|
    ensures forall k :: 0 <= k < |ts| ==> r[k].completed && r[k].(completed := ts[k].completed) == ts[k]
  {
    seq(|ts|, k requires 0 <= k < |ts| => ts[k].(completed := true))
  }

  /** After completing all, no task is active, every task is completed and the
      ids, texts, timestamps and order are those of the list before. */
  lemma {:induction false} AllCompletedViews(ts: seq<Task>)
    ensures |AllCompleted(ts)| == |ts|
    ensures forall k :: 0 <= k < |ts| ==> AllCompleted(ts)[k].(completed := ts[k].completed) == ts[k]
    ensures WithStatus(AllCompleted(ts), false) == []
    ensures WithStatus(AllCompleted(ts), true) == AllCompleted(ts)
  {
    if ts != [] {
      AllCompletedViews(ts[1..]);
      assert AllCompleted(ts)[1..] == AllCompleted(ts[1..]);
    }
  }

  /** When no task is active, completing all changes nothing. */
  lemma {:induction false} AllCompletedWhenNoneActive(ts: seq<Task>)
    requires WithStatus(ts, false) == []
    ensures AllCompleted(ts) == ts
  {
    forall k | 0 <= k < |ts| ensures ts[k].completed {
      assert ts[k] in ts;
    }
  }

  /** When no task is completed, clearing completed tasks changes nothing. */
  lemma {:induction false} ClearWhenNoneCompleted(ts: seq<Task>)
    requires WithStatus(ts, true) == []
    ensures WithStatus(ts, false) == ts
  {
    if ts != [] {
      assert ts[0] in ts;
      assert !ts[0].completed;
      assert WithStatus(ts[1..], true) == [] by {
        assert WithStatus(ts, true) == WithStatus(ts[1..], true);
      }
      ClearWhenNoneCompleted(ts[1..]);
      assert ts == [ts[0]] + ts[1..];
    }
  }
}
