/**
 * The task manager window reduced to its state: the rows of the task list
 * widget, the list's current row and the text of the task-name input. Each
 * button handler is a method; a warning dialog becomes a `Fail` outcome.
 */
module Manager {
  import opened Wrappers
  import opened PyStr
  import opened StableSort
  import opened TaskRows

  /** What opening and decoding the task file yields. */
  datatype TasksFile =
    | Missing                      // `open` raises FileNotFoundError
    | NotJson                      // `json.load` raises
    | Objects(objs: seq<Object>)   // a JSON array of objects with text values

  /** `s` without its element at `r`. */
  function Without(s: seq<string>, r: nat): (t: seq<string>)
    requires r < |s|
    ensures |t| == |s| - 1
    ensures forall k :: 0 <= k < r ==> t[k] == s[k]
    ensures forall k :: r <= k < |t| ==> t[k] == s[k + 1]
    ensures multiset(t) == multiset(s) - multiset{s[r]}
  {
    assert s == s[..r] + [s[r]] + s[r + 1..];
    s[..r] + s[r + 1..]
  }

  /**
   * What the `save_tasks` call at the end of a handler reports: nothing, or
   * the error of the first row it cannot parse.
   */
  function Saved(rows: seq<string>): Outcome<Error> {
    match SaveRecords(rows)
    case Ok(_) => Pass
    case Err(e) => Fail(e)
  }

  /** What a handler reports for an optional failure. */
  function Reported(failure: Option<Error>): Outcome<Error> {
    match failure
    case None => Pass
    case Some(e) => Fail(e)
  }

  class TaskManager {
    /** The texts of the list widget's rows, top to bottom. */
    var items: seq<string>
    /** The list widget's current row, -1 when there is none. */
    var currentRow: int
    /** The text typed into the task-name input. */
    var input: string

    ghost predicate Valid()
      reads this
    {
      -1 <= currentRow < |items|
    }

    /** The window starts with empty widgets and then loads the task file. */
    constructor (file: TasksFile)
      ensures Valid() && input == [] && currentRow == -1
      ensures items == if file.Objects? then LoadRows(file.objs).rows else []
    {
      items, currentRow, input := [], -1, [];
      new;
      var _ := LoadTasks(file);
    }

    /**
     * `add_task`: a name that is blank after stripping is refused; otherwise
     * one row for the stripped name is appended, the input is cleared and
     * the rows are saved.
     */
    method AddTask(priority: string, deadline: string) returns (res: Outcome<Error>)
      requires Valid()
      modifies this
      ensures Valid() && currentRow == old(currentRow)
      ensures AllSpace(old(input)) ==> res == Fail(EmptyTask) && items == old(items) && input == old(input)
      ensures !AllSpace(old(input)) ==>
        input == [] && items == old(items) + [Format(Strip(old(input)), priority, deadline)] && res == Saved(items)
    {
      var name := Strip(input);
      StripSpec(input);
      if name != [] {
        items := items + [Format(name, priority, deadline)];
        input := [];
        res := SaveAndReport();
      } else {
        res := Fail(EmptyTask);
      }
    }

    /**
     * `delete_task`: with no current row it is refused; otherwise the current
     * row is taken out, the others keep their order, and the rows are saved.
     * The list then makes the row that moved up into the removed place
     * current, or else the new last row, or else none.
     */
    method DeleteTask() returns (res: Outcome<Error>)
      requires Valid()
      modifies this
      ensures Valid() && input == old(input)
      ensures old(currentRow) < 0 ==> res == Fail(NoSelection) && items == old(items) && currentRow == old(currentRow)
      ensures old(currentRow) >= 0 ==>
        items == Without(old(items), old(currentRow)) && res == Saved(items)
        && currentRow == (if old(currentRow) < |items| then old(currentRow) else |items| - 1)
    {
      if currentRow >= 0 {
        items := Without(items, currentRow);
        currentRow := if currentRow < |items| then currentRow else |items| - 1;
        res := SaveAndReport();
      } else {
        res := Fail(NoSelection);
      }
    }

    /** `sort_by_priority`: the stable sort by priority rank and a save, or the key error and no change. */
    method SortByPriority() returns (res: Outcome<Error>)
      requires Valid()
      modifies this
      ensures Valid() && input == old(input)
      ensures PrioritySorted(old(items)).Ok? ==>
        items == PrioritySorted(old(items)).value && currentRow == -1 && res == Saved(items)
      ensures PrioritySorted(old(items)).Err? ==>
        res == Fail(PrioritySorted(old(items)).error) && items == old(items) && currentRow == old(currentRow)
    {
      res := SortBy(PriorityKey, PriorityLe);
    }

    /** `sort_by_deadline`: the stable sort by deadline text and a save, or the key error and no change. */
    method SortByDeadline() returns (res: Outcome<Error>)
      requires Valid()
      modifies this
      ensures Valid() && input == old(input)
      ensures DeadlineSorted(old(items)).Ok? ==>
        items == DeadlineSorted(old(items)).value && currentRow == -1 && res == Saved(items)
      ensures DeadlineSorted(old(items)).Err? ==>
        res == Fail(DeadlineSorted(old(items)).error) && items == old(items) && currentRow == old(currentRow)
    {
      res := SortBy(DeadlineKey, DeadlineLe);
    }

    /**
     * Copy the rows, compute every row's key in order (the first failure
     * aborts before the list is touched), sort the copy stably, then clear
     * the list, add the sorted rows back and save them.
     */
    method SortBy<K>(key: string -> Result<K, Error>, le: (string, string) -> bool) returns (res: Outcome<Error>)
      requires Valid()
      modifies this
      ensures Valid() && input == old(input)
      ensures Collect(old(items), key).Ok? ==> items == Sort(old(items), le) && currentRow == -1 && res == Saved(items)
      ensures Collect(old(items), key).Err? ==>
        res == Fail(Collect(old(items), key).error) && items == old(items) && currentRow == old(currentRow)
    {
      var tasks := items;
      var keys := CollectKeys(tasks, key);
      if keys.Err? {
        return Fail(keys.error);
      }
      var sorted := Sort(tasks, le);
      items, currentRow := [], -1;
      items := items + sorted;
      res := SaveAndReport();
    }

    /** The list comprehension `list.sort` runs first: every row's key in order, stopping at the first failure. */
    static method CollectKeys<K>(tasks: seq<string>, key: string -> Result<K, Error>) returns (res: Result<seq<K>, Error>)
      ensures res == Collect(tasks, key)
    {
      var keys: seq<K> := [];
      for i := 0 to |tasks|
        invariant Collect(tasks[..i], key) == Ok(keys)
      {
        var k := key(tasks[i]);
        assert tasks[..i + 1][..i] == tasks[..i];
        if k.Err? {
          CollectStops(tasks, key, i + 1);
          return Err(k.error);
        }
        keys := keys + [k.value];
      }
      assert tasks[..|tasks|] == tasks;
      return Ok(keys);
    }

    /** The record-building loop of `save_tasks`: one record per row, or the error of the first row it cannot parse. */
    method SaveTasks() returns (res: Result<seq<Record>, Error>)
      ensures res == SaveRecords(items)
    {
      var tasks: seq<Record> := [];
      for i := 0 to |items|
        invariant SaveRecords(items[..i]) == Ok(tasks)
      {
        var info := ParseRecord(items[i]);
        assert items[..i + 1][..i] == items[..i];
        if info.Err? {
          CollectStops(items, ParseRecord, i + 1);
          return Err(info.error);
        }
        tasks := tasks + [info.value];
      }
      assert items[..|items|] == items;
      return Ok(tasks);
    }

    /** The `save_tasks` call that ends a handler, with what it reports. */
    method SaveAndReport() returns (res: Outcome<Error>)
      ensures res == Saved(items)
    {
      var saved := SaveTasks();
      res := if saved.Ok? then Pass else Fail(saved.error);
    }

    /**
     * `load_tasks`: a missing or undecodable file changes nothing; otherwise
     * the list is cleared and one row is added per object, up to the first
     * object that lacks a key.
     */
    method LoadTasks(file: TasksFile) returns (res: Outcome<Error>)
      requires Valid()
      modifies this
      ensures Valid() && input == old(input)
      ensures file.Missing? ==> res == Fail(FileNotFound) && items == old(items) && currentRow == old(currentRow)
      ensures file.NotJson? ==> res == Fail(InvalidJson) && items == old(items) && currentRow == old(currentRow)
      ensures file.Objects? ==>
        items == LoadRows(file.objs).rows && currentRow == -1 && res == Reported(LoadRows(file.objs).failure)
    {
      match file
      case Missing => res := Fail(FileNotFound);
      case NotJson => res := Fail(InvalidJson);
      case Objects(objs) => res := LoadObjects(objs);
    }

    /** The loop of `load_tasks` over the decoded objects, after the list is cleared. */
    method LoadObjects(objs: seq<Object>) returns (res: Outcome<Error>)
      modifies this
      ensures Valid() && input == old(input)
      ensures items == LoadRows(objs).rows && currentRow == -1 && res == Reported(LoadRows(objs).failure)
    {
      items, currentRow := [], -1;
      for i := 0 to |objs|
        invariant LoadRows(objs[..i]) == Loaded(items, None)
        invariant currentRow == -1 && input == old(input)
      {
        var row := RowOf(objs[i]);
        assert objs[..i + 1][..i] == objs[..i];
        if row.Err? {
          LoadRowsStops(objs, i + 1);
          return Fail(row.error);
        }
        items := items + [row.value];
      }
      assert objs[..|objs|] == objs;
      res := Pass;
    }
  }
}
