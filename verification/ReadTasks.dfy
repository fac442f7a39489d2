/** Modbus block reads: points placed in a register range, the key of a range, and the splitting of a
    block into smaller ones. */
module ReadTasks {
  import opened Results
  import opened Integers
  import opened Sequences
  import opened Decimal

  /** A measured point: its read function, its register range and its collection priority. */
  datatype Point = Point(index: nat, code: int, address: int, length: nat, priority: int)

  datatype TaskPoint = TaskPoint(definition: Point, offset: int)

  /** A block read of `count` registers; `code` is the Modbus read function. */
  datatype ReadTask = ReadTask(code: int, start: int, count: int, points: seq<TaskPoint>)

  function Definitions(points: seq<TaskPoint>): (r: seq<Point>) {
    seq(|points|, i requires 0 <= i < |points| => points[i].definition)
  }

  /** Every point has the block's read function and lies inside it, at the offset its address says. */
  predicate WellPlaced(task: ReadTask) {
    forall i :: 0 <= i < |task.points| ==>
      var p := task.points[i];
      && p.definition.code == task.code
      && p.offset == p.definition.address - task.start && 0 <= p.offset && p.offset + p.definition.length <= task.count
  }

  // ----- keys of ranges -----

  function Key(code: int, start: int, count: int): string {
    Print(code) + ":" + Print(start) + ":" + Print(count)
  }

  function KeyOf(task: ReadTask): string {
    Key(task.code, task.start, task.count)
  }

  datatype ParsedKey = ParsedKey(code: int, start: int, count: int)

  function ParseKey(key: string): (r: Option<ParsedKey>) {
    var first := Find(key, ':', 0);
    if first == |key| then None
    else
      var second := Find(key, ':', first + 1);
      if second == |key| then None
      else
        var code, start, count := Stoi(key[..first]), Stoi(key[first + 1..second]), Stoi(key[second + 1..]);
        if code.Ok? && start.Ok? && count.Ok? && count.value > 0
        then Some(ParsedKey(code.value, start.value, count.value)) else None
  }

  lemma NoColon(n: int)
    ensures ':' !in Print(n)
  {
  }

  /** Printing and parsing a range key are inverse; a range without registers has no valid key. */
  lemma ParsePrintedKey(code: int, start: int, count: int)
    requires IsInt32(code) && IsInt32(start) && IsInt32(count)
    ensures ParseKey(Key(code, start, count)) == if count > 0 then Some(ParsedKey(code, start, count)) else None
  {
    hide Stoi, Print, Find;
    var key := Key(code, start, count);
    var c, s, n := Print(code), Print(start), Print(count);
    NoColon(code);
    NoColon(start);
    assert key == c + ":" + (s + ":" + n);
    FindAfter(c, ':', s + ":" + n, 0);
    assert key == (c + ":" + s) + ":" + n;
    FindAfter(c + ":" + s, ':', n, |c| + 1);
    assert key[..|c|] == c;
    assert key[|c| + 1..|c| + 1 + |s|] == s;
    assert key[|c| + 1 + |s| + 1..] == n;
    StoiPrint(code);
    StoiPrint(start);
    StoiPrint(count);
  }

  predicate RangeCovers(outerStart: int, outerCount: int, innerStart: int, innerCount: int) {
    && outerStart <= innerStart
    && innerStart + (if innerCount < 0 then 0 else innerCount)
       <= outerStart + (if outerCount < 0 then 0 else outerCount)
  }

  // ----- splitting -----

  function Single(code: int, point: Point): ReadTask {
    ReadTask(code, point.address, point.length, [TaskPoint(point, 0)])
  }

  /** The next point joins the last block if the block stays within the register limit, or opens a new one. */
  function AddPoint(code: int, tasks: seq<ReadTask>, point: Point, maxRegisters: int): (r: seq<ReadTask>) {
    if tasks == [] then [Single(code, point)]
    else
      var last := tasks[|tasks| - 1];
      var end := Max(last.start + last.count, point.address + point.length);
      if last.code == code && point.address >= last.start && end - last.start <= maxRegisters then
        tasks[|tasks| - 1 := ReadTask(last.code, last.start, end - last.start,
                                      last.points + [TaskPoint(point, point.address - last.start)])]
      else tasks + [Single(code, point)]
  }

  /** The splitting of the first `n` points. */
  function SplitPrefix(task: ReadTask, maxRegisters: int, n: nat): (r: seq<ReadTask>)
    requires n <= |task.points|
  {
    if n == 0 then []
    else AddPoint(task.code, SplitPrefix(task, maxRegisters, n - 1), task.points[n - 1].definition, maxRegisters)
  }

  function SplitByPoint(task: ReadTask): (r: seq<ReadTask>) {
    seq(|task.points|, i requires 0 <= i < |task.points| => Single(task.code, task.points[i].definition))
  }

  /** Split into blocks within the register limit; a block that would not change is split by point. */
  function Split(task: ReadTask, maxRegisters: int): (r: seq<ReadTask>) {
    var tasks := SplitPrefix(task, Max(1, maxRegisters), |task.points|);
    if |tasks| == 1 && tasks[0].start == task.start && tasks[0].count == task.count
       && |tasks[0].points| == |task.points|
    then SplitByPoint(task) else tasks
  }

  /** All points of a list of blocks, in order. */
  ghost function Flatten(tasks: seq<ReadTask>): seq<Point> {
    if tasks == [] then [] else Flatten(tasks[..|tasks| - 1]) + Definitions(tasks[|tasks| - 1].points)
  }

  /** A splitting of some points: non-empty, well-placed blocks of the same read function. */
  ghost predicate IsSplitting(code: int, points: seq<Point>, tasks: seq<ReadTask>) {
    && Flatten(tasks) == points
    && forall k :: 0 <= k < |tasks| ==> tasks[k].points != [] && tasks[k].code == code && WellPlaced(tasks[k])
  }

  lemma SingleIsPlaced(code: int, point: Point)
    requires point.code == code
    ensures WellPlaced(Single(code, point)) && Definitions(Single(code, point).points) == [point]
  {
  }

  lemma AddPointSplits(code: int, points: seq<Point>, tasks: seq<ReadTask>, point: Point, maxRegisters: int)
    requires IsSplitting(code, points, tasks) && point.code == code
    ensures IsSplitting(code, points + [point], AddPoint(code, tasks, point, maxRegisters))
  {
    var r := AddPoint(code, tasks, point, maxRegisters);
    SingleIsPlaced(code, point);
    var n := |r| - 1;
    if tasks == [] {
      assert r[..0] == [];
    } else if |r| == |tasks| {
      var last := tasks[n];
      assert r[..n] == tasks[..n];
      assert Definitions(r[n].points) == Definitions(last.points) + [point];
      assert WellPlaced(last);
    } else {
      assert r[..n] == tasks;
    }
  }

  lemma {:induction false} PrefixSplits(task: ReadTask, maxRegisters: int, n: nat)
    requires n <= |task.points| && WellPlaced(task)
    ensures IsSplitting(task.code, Definitions(task.points)[..n], SplitPrefix(task, maxRegisters, n))
  {
    if n != 0 {
      PrefixSplits(task, maxRegisters, n - 1);
      var points := Definitions(task.points);
      AddPointSplits(task.code, points[..n - 1], SplitPrefix(task, maxRegisters, n - 1), points[n - 1], maxRegisters);
      assert points[..n] == points[..n - 1] + [points[n - 1]];
    }
  }

  lemma {:induction false} ByPointSplits(task: ReadTask, n: nat)
    requires n <= |task.points| && WellPlaced(task)
    ensures IsSplitting(task.code, Definitions(task.points)[..n], SplitByPoint(task)[..n])
  {
    var tasks, points := SplitByPoint(task), Definitions(task.points);
    if n != 0 {
      ByPointSplits(task, n - 1);
      SingleIsPlaced(task.code, points[n - 1]);
      assert tasks[..n][..n - 1] == tasks[..n - 1];
      assert points[..n] == points[..n - 1] + [points[n - 1]];
    }
  }

  /** Splitting keeps every point exactly once and in order, in well-placed blocks. */
  lemma SplitIsSplitting(task: ReadTask, maxRegisters: int)
    requires WellPlaced(task)
    ensures IsSplitting(task.code, Definitions(task.points), Split(task, maxRegisters))
  {
    var n := |task.points|;
    PrefixSplits(task, Max(1, maxRegisters), n);
    ByPointSplits(task, n);
    assert Definitions(task.points)[..n] == Definitions(task.points);
    assert SplitByPoint(task)[..n] == SplitByPoint(task);
  }

  lemma {:induction false} FlattenedLength(tasks: seq<ReadTask>, k: nat)
    requires k < |tasks| && forall j :: 0 <= j < |tasks| ==> tasks[j].points != []
    ensures |tasks[k].points| + |tasks| - 1 <= |Flatten(tasks)|
  {
    var n := |tasks| - 1;
    if k < n {
      FlattenedLength(tasks[..n], k);
    } else if n > 0 {
      FlattenedLength(tasks[..n], 0);
    }
  }

  /** With more than one block, every block has fewer points. */
  lemma SplitShrinks(task: ReadTask, maxRegisters: int)
    requires WellPlaced(task)
    ensures var tasks := Split(task, maxRegisters);
            |tasks| > 1 ==> forall k :: 0 <= k < |tasks| ==> 0 < |tasks[k].points| < |task.points|
  {
    var tasks := Split(task, maxRegisters);
    SplitIsSplitting(task, maxRegisters);
    forall k | 0 <= k < |tasks|
      ensures |tasks| > 1 ==> 0 < |tasks[k].points| < |task.points|
    {
      FlattenedLength(tasks, k);
    }
  }

  // ----- the register limit -----

  function End(point: Point): int {
    point.address + point.length
  }

  /** A block from its first point to the farthest end of its points. */
  ghost predicate Tight(task: ReadTask) {
    && task.points != [] && task.start == task.points[0].definition.address
    && (forall i :: 0 <= i < |task.points| ==>
          task.start <= task.points[i].definition.address && End(task.points[i].definition) <= task.start + task.count)
    && (exists i :: 0 <= i < |task.points| && End(task.points[i].definition) == task.start + task.count)
  }

  /** The point cannot join the block: it lies before it, or would take it over the limit. */
  predicate ForcedBreak(task: ReadTask, point: Point, limit: int) {
    point.address < task.start || Max(task.start + task.count, End(point)) - task.start > limit
  }

  /** Tight blocks, within the limit if they hold several points, none of which could have taken the next point. */
  ghost predicate Packed(tasks: seq<ReadTask>, limit: int) {
    && (forall k :: 0 <= k < |tasks| ==> Tight(tasks[k]) && (|tasks[k].points| > 1 ==> tasks[k].count <= limit))
    && (forall k :: 0 < k < |tasks| ==> ForcedBreak(tasks[k - 1], tasks[k].points[0].definition, limit))
  }

  lemma SingleIsTight(code: int, point: Point)
    ensures Tight(Single(code, point))
  {
    assert End(Single(code, point).points[0].definition) == point.address + point.length;
  }

  lemma JoinedIsTight(last: ReadTask, joined: ReadTask, point: Point)
    requires Tight(last) && point.address >= last.start
    requires var end := Max(last.start + last.count, End(point));
             joined == ReadTask(last.code, last.start, end - last.start,
                                last.points + [TaskPoint(point, point.address - last.start)])
    ensures Tight(joined)
  {
    var n := |last.points|;
    assert forall i :: 0 <= i < n ==> joined.points[i] == last.points[i];
    assert joined.points[n].definition == point;
    if End(point) < last.start + last.count {
      var i :| 0 <= i < n && End(last.points[i].definition) == last.start + last.count;
      assert End(joined.points[i].definition) == joined.start + joined.count;
    }
  }

  lemma AddPointPacks(code: int, tasks: seq<ReadTask>, point: Point, limit: int)
    requires Packed(tasks, limit) && forall k :: 0 <= k < |tasks| ==> tasks[k].code == code
    ensures Packed(AddPoint(code, tasks, point, limit), limit)
  {
    hide Tight;
    var r := AddPoint(code, tasks, point, limit);
    SingleIsTight(code, point);
    var n := |tasks| - 1;
    if tasks != [] && |r| == |tasks| {
      assert Tight(tasks[n]);
      JoinedIsTight(tasks[n], r[n], point);
      assert tasks[n].points != [] by {
        TightHasPoints(tasks[n]);
      }
      assert r[n].points[0] == tasks[n].points[0];
      assert r[n].count <= limit;
    }
  }

  lemma TightHasPoints(task: ReadTask)
    requires Tight(task)
    ensures task.points != []
  {
  }

  lemma {:induction false} PrefixPacked(task: ReadTask, limit: int, n: nat)
    requires n <= |task.points| && WellPlaced(task)
    ensures Packed(SplitPrefix(task, limit, n), limit)
  {
    hide Packed, AddPoint;
    if n == 0 {
      NothingPacked(limit);
    } else {
      PrefixPacked(task, limit, n - 1);
      PrefixSplits(task, limit, n - 1);
      AddPointPacks(task.code, SplitPrefix(task, limit, n - 1), task.points[n - 1].definition, limit);
    }
  }

  lemma NothingPacked(limit: int)
    ensures Packed([], limit)
  {
  }

  /** While the points of a task that is within the limit are packed, there is one block, inside the task. */
  lemma {:induction false} OneBlock(task: ReadTask, limit: int, n: nat)
    requires WellPlaced(task) && Packed([task], limit) && 0 < n <= |task.points|
    ensures var r := SplitPrefix(task, limit, n);
            |r| == 1 && r[0].code == task.code && r[0].start == task.start && r[0].count <= task.count
            && r[0].points == task.points[..n]
  {
    assert [task][0] == task;
    var last := task.points[n - 1];
    assert last.offset == last.definition.address - task.start;
    if n == 1 {
      assert task.points[..1] == [TaskPoint(last.definition, 0)];
      assert SplitPrefix(task, limit, 0) == [];
    } else {
      OneBlock(task, limit, n - 1);
      assert task.points[..n] == task.points[..n - 1] + [last];
    }
  }

  lemma SameExtent(a: ReadTask, b: ReadTask)
    requires Tight(a) && Tight(b) && a.points == b.points
    ensures a.start == b.start && a.count == b.count
  {
  }

  /** What splitting does: a task whose points one block can take (and that is that block) is split by point; any other
      is packed greedily, so that every break is forced. In both cases a block of several points is within the limit. */
  lemma SplitIsGreedy(task: ReadTask, maxRegisters: int)
    requires WellPlaced(task)
    ensures var limit, parts := Max(1, maxRegisters), Split(task, maxRegisters);
            && (forall k :: 0 <= k < |parts| && |parts[k].points| > 1 ==> parts[k].count <= limit)
            && if Packed([task], limit)
               then |parts| == |task.points| && forall k :: 0 <= k < |parts| ==> |parts[k].points| == 1
               else Packed(parts, limit)
  {
    hide Tight;
    var limit, n := Max(1, maxRegisters), |task.points|;
    var packed := SplitPrefix(task, limit, n);
    PrefixPacked(task, limit, n);
    if Packed([task], limit) {
      assert Tight([task][0]);
      TightHasPoints(task);
      OneBlock(task, limit, n);
      assert task.points[..n] == task.points;
      SameExtent(packed[0], task);
    } else if |packed| == 1 && packed[0].start == task.start && packed[0].count == task.count
              && |packed[0].points| == n {
      PrefixSplits(task, limit, n);
      SameBlock(task, packed);
      assert false;
    }
  }

  /** The only block of all points of a task, with its start and count, is the task. */
  lemma SameBlock(task: ReadTask, tasks: seq<ReadTask>)
    requires WellPlaced(task) && |tasks| == 1 && tasks[0].start == task.start && tasks[0].count == task.count
    requires IsSplitting(task.code, Definitions(task.points)[..|task.points|], tasks)
    ensures tasks == [task]
  {
    assert tasks[..0] == [];
    var a, b := tasks[0].points, task.points;
    assert Flatten(tasks) == Definitions(a);
    assert Definitions(a) == Definitions(b);
    forall i | 0 <= i < |b|
      ensures a[i] == b[i]
    {
      assert Definitions(a)[i] == Definitions(b)[i];
      assert WellPlaced(tasks[0]);
    }
    assert a == b;
  }
}
