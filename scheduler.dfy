/** The task scheduler: a worksheet of tasks, the list of items the window
    shows for it, and the event handlers that change both.

    Every handler driven by a selection acts on sheet row `iid + 1`, where
    `iid` is the sheet row number the listing gave the selected item: the
    handlers act on the row BELOW the selected one. The model keeps this. */
module TaskScheduler {
  import opened Worksheet
  import opened Text

  datatype Option<T> = None | Some(value: T)

  /** The column names a new sheet gets in row 1, one cell each, left to
      right. */
  const Headers: seq<string> := ["Task", "Status", "Timestamp", "Notes"]

  /** The row 1 that writing `Headers` produces. */
  const HeaderRow := Row(Headers[0], Headers[1], Headers[2], Headers[3])

  /** The three status values the status buttons write. */
  const NotStarted := "Not Started"
  const UnderProcess := "Under Process"
  const Completed := "Completed"

  /** The rows a new sheet is seeded with, below the header. */
  const SampleData: seq<Row> := [
    Row("Design project layout", NotStarted, "", ""),
    Row("Write project documentation", UnderProcess, "2024-06-27 14:45:00", "Documentation is halfway done."),
    Row("Implement user authentication", Completed, "2024-06-25 11:30:00", ""),
    Row("Setup database schema", Completed, "2024-06-26 09:20:00", ""),
    Row("Conduct code review", NotStarted, "", ""),
    Row("Test application features", UnderProcess, "2024-06-28 10:00:00", "Initial testing started, some bugs found."),
    Row("Deploy application to production", NotStarted, "", ""),
    Row("Optimize application performance", Completed, "2024-06-24 08:45:00", ""),
    Row("Gather user feedback", NotStarted, "", ""),
    Row("Schedule team meeting", Completed, "2024-06-23 15:00:00", "")
  ]

  /** The last sheet row the listing shows. */
  const LastListedRow := 31

  /** The messages of the error dialogs. */
  const EmptyTaskMessage := "Task description cannot be empty"
  const NoTaskSelectedMessage := "No task selected"

  /** What a handler reports: done, or the error dialog it would show. */
  datatype Report = Done | ErrorDialog(message: string)

  /** The colour tags the listing gives to items by status. */
  datatype Tag = NotStartedTag | UnderProcessTag | CompletedTag

  /** The status value that earns a tag. */
  function StatusOf(tag: Tag): (status: string) {
    match tag
    case NotStartedTag => NotStarted
    case UnderProcessTag => UnderProcess
    case CompletedTag => Completed
  }

  /** The tag the listing gives a row with this status; any other status,
      the empty one included, gets no tag. */
  function TagFor(status: string): (t: Option<Tag>)
    ensures t.Some? ==> StatusOf(t.value) == status
    ensures t.None? ==> forall tag: Tag :: StatusOf(tag) != status
  {
    if status == NotStarted then Some(NotStartedTag)
    else if status == UnderProcess then Some(UnderProcessTag)
    else if status == Completed then Some(CompletedTag)
    else None
  }

  /** One item of the listing: its id, the four values it shows, its tag. */
  datatype Item = Item(iid: int, values: Row, tag: Option<Tag>)

  function Min(a: int, b: int): (m: int) {
    if a <= b then a else b
  }

  /** The last sheet row that is listed. */
  function LastListed(rows: seq<Row>): (last: int) {
    Min(|rows|, LastListedRow)
  }

  /** The item the listing makes of sheet row `r`; its id is `r`. */
  function ListedItem(rows: seq<Row>, r: int): (item: Item)
    requires 1 <= r <= |rows|
  {
    Item(r, rows[r - 1], TagFor(rows[r - 1].status))
  }

  /** The items listed for a sheet: sheet rows 2 up to the last listed one.
      There are at most 30: the earliest data rows, in sheet order, each
      under its own sheet row number and tagged by its status. */
  function Listing(rows: seq<Row>): (items: seq<Item>)
    requires |rows| >= 1
    ensures |items| == Min(|rows| - 1, 30) <= 30
    ensures forall k :: 0 <= k < |items| ==>
      && items[k].iid == k + 2
      && items[k].values == rows[k + 1]
      && items[k].tag == TagFor(rows[k + 1].status)
  {
    seq(LastListed(rows) - 1, k requires 0 <= k < LastListed(rows) - 1 => ListedItem(rows, k + 2))
  }

  /** Some item of `items` has id `iid`. */
  predicate Shows(items: seq<Item>, iid: int) {
    exists k :: 0 <= k < |items| && items[k].iid == iid
  }


  /** Exactly sheet rows 2 up to the last listed row are shown. */
  lemma ListingShowsIff(rows: seq<Row>, iid: int)
    requires |rows| >= 1
    ensures Shows(Listing(rows), iid) <==> 2 <= iid <= LastListed(rows)
  {
    if 2 <= iid <= LastListed(rows) {
      assert Listing(rows)[iid - 2].iid == iid;
    }
  }

  /** Rows below row 31 never reach the listing, so a task added to a sheet
      that already has 31 rows is not shown. */
  lemma RowsPastCapNotListed(rows: seq<Row>, more: seq<Row>)
    requires |rows| >= LastListedRow
    ensures Listing(rows + more) == Listing(rows)
  {
    assert LastListed(rows + more) == LastListed(rows);
  }

  /** A selected item shows sheet row `iid` itself. */
  lemma SelectedItemIsSheetRow(rows: seq<Row>, iid: int)
    requires |rows| >= 1 && Shows(Listing(rows), iid)
    ensures 2 <= iid <= |rows| && Listing(rows)[iid - 2] == ListedItem(rows, iid)
  {
    ListingShowsIff(rows, iid);
  }

  /** The sheet row a handler acts on when item `iid` is selected: the row
      below the selected one, never the header or row 2. Selecting the last
      item of a sheet with at most 31 rows makes it one past the end. */
  function TargetRow(rows: seq<Row>, iid: int): (r: int)
    requires |rows| >= 1 && Shows(Listing(rows), iid)
    ensures r == iid + 1
    ensures 3 <= r <= |rows| + 1
    ensures r == |rows| + 1 <==> iid == LastListed(rows) && |rows| <= LastListedRow
  {
    ListingShowsIff(rows, iid);
    iid + 1
  }

  /** The application: the worksheet and the items the window lists. */
  class Scheduler {
    /** The worksheet; sheet row `r` is `rows[r - 1]`. */
    var rows: seq<Row>
    /** The items the task list shows. */
    var tree: seq<Item>

    /** The sheet has at least one row (max_row is never below 1), and the
        task list shows the listing of the current sheet. */
    ghost predicate Valid()
      reads this
    {
      |rows| >= 1 && tree == Listing(rows)
    }

    /** Start-up without a task file: a new sheet with the header in row 1
        and the sample rows below it, then listed. */
    constructor Create()
      ensures Valid()
      ensures rows == [HeaderRow] + SampleData
    {
      rows := [];
      tree := [];
      new;
      var col := 1;
      while col <= |Headers|
        invariant 1 <= col <= |Headers| + 1
        invariant col == 1 ==> rows == []
        invariant col > 1 ==> |rows| == 1
        invariant col > 1 ==> forall c :: IsColumn(c) ==>
          Cell(rows[0], c) == if c < col then Headers[c - 1] else ""
      {
        rows := WriteCell(rows, 1, col, Headers[col - 1]);
        col := col + 1;
      }
      RowsAgreeOnCells(rows[0], HeaderRow);
      var i := 0;
      while i < |SampleData|
        invariant 0 <= i <= |SampleData|
        invariant rows == [HeaderRow] + SampleData[..i]
      {
        rows := rows + [SampleData[i]];
        i := i + 1;
      }
      ListTasks();
    }

    /** Start-up with an existing task file whose active sheet holds `sheet`;
        an empty sheet still has a row 1, with no cells. */
    constructor Open(sheet: seq<Row>)
      ensures Valid()
      ensures rows == if sheet == [] then [EmptyRow] else sheet
    {
      rows := if sheet == [] then [EmptyRow] else sheet;
      tree := [];
      new;
      ListTasks();
    }

    /** Clears the task list and refills it with the listed rows. */
    method ListTasks()
      requires |rows| >= 1
      modifies this`tree
      ensures Valid() && tree == Listing(rows)
    {
      tree := [];
      var last := LastListed(rows);
      var r := 2;
      while r <= last
        invariant 2 <= r <= last + 1
        invariant |tree| == r - 2
        invariant forall k :: 0 <= k < |tree| ==> tree[k] == ListedItem(rows, k + 2)
      {
        var values := rows[r - 1];
        tree := tree + [Item(r, values, TagFor(values.status))];
        r := r + 1;
      }
    }

    /** Adds a task: a blank description is refused; otherwise a row
        (description, Not Started, "", "") is written below the last row. */
    method AddTask(description: string) returns (report: Report)
      requires Valid()
      modifies this
      ensures Valid()
      ensures AllWhitespace(description) ==>
        report == ErrorDialog(EmptyTaskMessage) && rows == old(rows) && tree == old(tree)
      ensures !AllWhitespace(description) ==>
        report == Done && rows == old(rows) + [Row(description, NotStarted, "", "")]
    {
      StripEmptyIff(description);
      if Strip(description) == [] {
        return ErrorDialog(EmptyTaskMessage);
      }
      var row := |rows| + 1;
      WriteCellShape(rows, row, 1, description);
      rows := WriteCell(rows, row, 1, description);
      WriteCellShape(rows, row, 2, NotStarted);
      rows := WriteCell(rows, row, 2, NotStarted);
      WriteCellShape(rows, row, 3, "");
      rows := WriteCell(rows, row, 3, "");
      WriteCellShape(rows, row, 4, "");
      rows := WriteCell(rows, row, 4, "");
      ListTasks();
      report := Done;
    }

    /** Marks a task: with no selection an error is reported; otherwise the
        status and the timestamp `now` are written into the row below the
        selected one, which is appended when the last item was selected. */
    method UpdateTaskStatus(selected: Option<int>, status: string, now: string) returns (report: Report)
      requires Valid()
      requires selected.Some? ==> Shows(tree, selected.value)
      modifies this
      ensures Valid()
      ensures selected.None? ==>
        report == ErrorDialog(NoTaskSelectedMessage) && rows == old(rows) && tree == old(tree)
      ensures selected.Some? ==> var t := TargetRow(old(rows), selected.value);
        && report == Done
        && |rows| == (if t <= |old(rows)| then |old(rows)| else t)
        && rows[..2] == old(rows)[..2]
        && rows[t - 1] == RowAt(old(rows), t).(status := status, timestamp := now)
        && forall i :: 0 <= i < |old(rows)| && i != t - 1 ==> rows[i] == old(rows)[i]
    {
      if selected.None? {
        return ErrorDialog(NoTaskSelectedMessage);
      }
      var taskRow := TargetRow(rows, selected.value);
      rows := WriteCell(rows, taskRow, 2, status);
      rows := WriteCell(rows, taskRow, 3, now);
      RowsAgreeOnCells(rows[taskRow - 1], RowAt(old(rows), taskRow).(status := status, timestamp := now));
      ListTasks();
      report := Done;
    }

    /** Deletes a task: with no selection an error is reported; otherwise
        the row below the selected one is deleted, which removes nothing when
        the last item was selected. */
    method DeleteTask(selected: Option<int>) returns (report: Report)
      requires Valid()
      requires selected.Some? ==> Shows(tree, selected.value)
      modifies this
      ensures Valid()
      ensures selected.None? ==>
        report == ErrorDialog(NoTaskSelectedMessage) && rows == old(rows) && tree == old(tree)
      ensures selected.Some? ==>
        && report == Done
        && rows == DeleteRow(old(rows), TargetRow(old(rows), selected.value))
        && |rows| >= 2 && rows[..2] == old(rows)[..2]
    {
      if selected.None? {
        return ErrorDialog(NoTaskSelectedMessage);
      }
      var taskRow := TargetRow(rows, selected.value);
      rows := DeleteRow(rows, taskRow);
      ListTasks();
      report := Done;
    }

    /** Sets the notes of a task: with no selection an error is reported;
        otherwise `notes`, even empty, is written into the notes of the row
        below the selected one. */
    method AddNotes(selected: Option<int>, notes: string) returns (report: Report)
      requires Valid()
      requires selected.Some? ==> Shows(tree, selected.value)
      modifies this
      ensures Valid()
      ensures selected.None? ==>
        report == ErrorDialog(NoTaskSelectedMessage) && rows == old(rows) && tree == old(tree)
      ensures selected.Some? ==> var t := TargetRow(old(rows), selected.value);
        && report == Done
        && |rows| == (if t <= |old(rows)| then |old(rows)| else t)
        && rows[..2] == old(rows)[..2]
        && rows[t - 1] == RowAt(old(rows), t).(notes := notes)
        && forall i :: 0 <= i < |old(rows)| && i != t - 1 ==> rows[i] == old(rows)[i]
    {
      if selected.None? {
        return ErrorDialog(NoTaskSelectedMessage);
      }
      var taskRow := TargetRow(rows, selected.value);
      rows := WriteCell(rows, taskRow, 4, notes);
      ListTasks();
      report := Done;
    }
  }

  /** Starting from a sheet holding only the header: add "Write spec", mark
      the item shown for it as Under Process, then delete that item. The
      status lands on a new row below the task, and the delete removes that
      row again: the task itself is never marked and never deleted. */
  method AddMarkDeleteScenario(now: string) returns (afterAdd: seq<Item>, afterStatus: seq<Item>, afterDelete: seq<Item>)
    ensures afterAdd == [Item(2, Row("Write spec", NotStarted, "", ""), Some(NotStartedTag))]
    ensures afterStatus == afterAdd + [Item(3, Row("", UnderProcess, now, ""), Some(UnderProcessTag))]
    ensures afterDelete == afterAdd
  {
    var app := new Scheduler.Open([HeaderRow]);
    assert !IsWhitespace("Write spec"[0]);
    var report := app.AddTask("Write spec");
    afterAdd := app.tree;
    ListingShowsIff(app.rows, 2);
    report := app.UpdateTaskStatus(Some(2), UnderProcess, now);
    afterStatus := app.tree;
    ListingShowsIff(app.rows, 2);
    report := app.DeleteTask(Some(2));
    afterDelete := app.tree;
  }

  /** On the seeded sheet, marking the first listed task (Design project
      layout) as Completed changes the second one (Write project
      documentation) instead. */
  method MarkFirstSeededTask(now: string) returns (before: seq<Item>, after: seq<Item>)
    ensures |before| == |after| == 10
    ensures after[0] == before[0] && before[0].values == SampleData[0]
    ensures after[1].values == SampleData[1].(status := Completed, timestamp := now)
    ensures after[2..] == before[2..]
  {
    var app := new Scheduler.Create();
    before := app.tree;
    ListingShowsIff(app.rows, 2);
    var report := app.UpdateTaskStatus(Some(2), Completed, now);
    after := app.tree;
  }
}
