# Task Scheduler: the task sheet and its handlers

This project models the core of the To-Do Task Scheduler, a small Tk desktop
program that keeps a list of tasks in a spreadsheet. It covers the worksheet
every event handler reads and changes in place. The model also covers the
item list the window shows for that sheet, and the handlers that change both:
adding a task, marking its status, setting its notes and deleting it.

- `worksheet.dfy`, module `Worksheet`: the sheet as the program uses it. It is
  a 1-based grid of rows with the four columns Task, Status, Timestamp and Notes.
  The sheet is the sequence of its rows and its length is `max_row`. A cell
  that was never written reads as `""`. Writing a cell below the last row
  extends the sheet. Deleting a row closes the gap, and deleting a row past the
  last one removes nothing.
- `text.dfy`, module `Text`: the blank check, Python's `str.strip()` with the
  whitespace set of `str.isspace()`.
- `scheduler.dfy`, module `TaskScheduler`: the header and the ten seed rows.
  It also holds the status values, the status-to-tag choice and the listing.
  The listing shows sheet rows 2 up to `min(max_row, 31)`, each under its own
  sheet row number as item id. The class `Scheduler` holds the sheet (`rows`)
  and the shown items (`tree`). Its methods are the start-up paths and the
  five handlers.

The selection-driven handlers act on sheet row `iid + 1`, where `iid` is the
sheet row number of the selected item. They therefore act on the row *below*
the selected one. The model keeps this behaviour as the program has it:

- selecting the last listed item of a sheet with at most 31 rows makes a
  status or notes write append a row whose task cell is empty;
- a delete in that case removes nothing;
- no handler can reach the header or row 2.

`AddMarkDeleteScenario` and `MarkFirstSeededTask` play this out on concrete
sheets.

- No handler checks that the row it acts on exists. The only dialogs the
  handlers show are for a blank description and for an empty selection (limits
  of the spreadsheet library itself are listed under "Left out").
- Adding a task, marking it Under Process and deleting it leaves the task
  listed and still Not Started. The mark lands on a new row below the task and
  the delete removes that row again (`AddMarkDeleteScenario`).

## Model

| member | source | states |
|---|---|---|
| `Worksheet.WriteCell` | To_DO_Task_Schedular.py:38-41 | a cell write sets that cell of row `r`; the sheet grows to `r` rows when `r` is below the last row; every other row reads as before |
| `Worksheet.WriteCellShape` | To_DO_Task_Schedular.py:37-41 | a write inside the sheet replaces one row; a write at `max_row + 1` appends one row |
| `Worksheet.ReadAfterWrite` | To_DO_Task_Schedular.py:52-53 | after a write, the written cell reads the new value and every other cell, written or not, reads as before |
| `Worksheet.DeleteRow` | To_DO_Task_Schedular.py:76 | deleting row `r` shrinks the sheet by one when `r` exists, and rows below `r` move up by one; past the last row nothing changes |
| `Worksheet.DeleteUndoesWritePastEnd` | To_DO_Task_Schedular.py:75-76 | deleting the row that a write past the end created gives back the original sheet |
| `Text.Strip` | To_DO_Task_Schedular.py:34 | `strip()` returns no more than its input, and a non-empty result neither starts nor ends with whitespace |
| `Text.StripLeadingDropsWhitespace` | To_DO_Task_Schedular.py:34 | stripping the front leaves a suffix of the input, and every character it drops is whitespace |
| `Text.StripLeadingStartsSolid` | To_DO_Task_Schedular.py:34 | what stripping the front leaves does not start with whitespace |
| `Text.StripTrailingDropsWhitespace` | To_DO_Task_Schedular.py:34 | stripping the back leaves a prefix of the input, and every character it drops is whitespace |
| `Text.StripTrailingEndsSolid` | To_DO_Task_Schedular.py:34 | what stripping the back leaves does not end with whitespace |
| `Text.StripIsTrimmedMiddle` | To_DO_Task_Schedular.py:34 | `strip()` returns a middle slice of the input; both removed ends are whitespace and the slice starts and ends with non-whitespace |
| `Text.StripEmptyIff` | To_DO_Task_Schedular.py:34-36 | `strip()` is empty exactly when the description is whitespace only (or empty) |
| `TaskScheduler.TagFor` | To_DO_Task_Schedular.py:62-67 | a row gets the tag whose status value equals its status; any other status gets no tag |
| `TaskScheduler.Listing` | To_DO_Task_Schedular.py:59-67 | the items `list_tasks` inserts: `min(max_row - 1, 30)` of them, at most 30; item `k` shows the values of sheet row `k + 2` under id `k + 2`, with the tag its status earns |
| `TaskScheduler.ListingShowsIff` | To_DO_Task_Schedular.py:59-61 | an id is shown exactly when `2 <= id <= min(max_row, 31)` |
| `TaskScheduler.RowsPastCapNotListed` | To_DO_Task_Schedular.py:59 | once the sheet has 31 rows, rows added below do not change the listing |
| `TaskScheduler.SelectedItemIsSheetRow` | To_DO_Task_Schedular.py:59-61 | a shown item `iid` shows sheet row `iid` itself, with `2 <= iid <= max_row` |
| `TaskScheduler.TargetRow` | To_DO_Task_Schedular.py:51 | for a shown item `iid` the status, delete and notes handlers act on row `iid + 1` (the same expression recurs at lines 75 and 85), which lies in `3..max_row + 1`; it is `max_row + 1` exactly when the last item of a sheet with at most 31 rows is selected |
| `TaskScheduler.Scheduler.Create` | To_DO_Task_Schedular.py:22-31 | without a task file, the sheet is the header row followed by the ten sample rows, and the listing is shown |
| `TaskScheduler.Scheduler.Open` | To_DO_Task_Schedular.py:19-21 | with a task file, the sheet is the loaded one (an empty sheet still has a row 1), and the listing is shown |
| `TaskScheduler.Scheduler.ListTasks` | To_DO_Task_Schedular.py:57-67 | the shown items become exactly the listing of the current sheet; the sheet is unchanged |
| `TaskScheduler.Scheduler.AddTask` | To_DO_Task_Schedular.py:33-43 | a blank description reports "Task description cannot be empty" and changes nothing; otherwise exactly one row `(description, "Not Started", "", "")` is appended after the last row and earlier rows are unchanged |
| `TaskScheduler.Scheduler.UpdateTaskStatus` | To_DO_Task_Schedular.py:46-55 | with no selection it reports "No task selected" and changes nothing; otherwise row `iid + 1` gets the status and timestamp, its task and notes are kept, rows 1-2 and all other rows are unchanged, and the sheet grows only when that row did not exist |
| `TaskScheduler.Scheduler.DeleteTask` | To_DO_Task_Schedular.py:70-78 | with no selection it reports "No task selected" and changes nothing; otherwise row `iid + 1` is deleted (nothing when past the end), and rows 1-2 are kept |
| `TaskScheduler.Scheduler.AddNotes` | To_DO_Task_Schedular.py:80-89 | with no selection it reports "No task selected" and changes nothing; otherwise only the notes of row `iid + 1` are overwritten (an empty value too), and every other cell is unchanged |
| `TaskScheduler.AddMarkDeleteScenario` | To_DO_Task_Schedular.py:33-78 | from a header-only sheet, add then mark then delete leaves the task listed, still Not Started |
| `TaskScheduler.MarkFirstSeededTask` | To_DO_Task_Schedular.py:46-53 | on the seeded sheet, marking the first listed task Completed changes the second task instead and leaves the first unchanged |

## Left out

- The Tk window, entry fields, buttons, Treeview widget, tag colours, scrollbars, the quote label and the main loop are user interface. Only the item list that the listing inserts is modelled (`tree`).
- Scrolling the list to the bottom and clearing the entry fields after a handler are UI side effects and are not modelled.
- Error dialogs are returned as `Report.ErrorDialog(message)`, with the program's message text.
- Loading and saving `TaskScheduler.xlsx` is file I/O through a spreadsheet library. The loaded sheet is a constructor parameter, and each save leaves the in-memory sheet unchanged. Whether a saved sheet reloads identically is not modelled.
- Setting the sheet title `Task Scheduler` on a new workbook is not modelled; the title is never read.
- The current time and its formatting are a library call. The timestamp is an opaque `now` string given to `UpdateTaskStatus`, so nothing relates it to the time of the call.
- Worksheet.WriteCell: does not model the value checks of the spreadsheet library's cell write. That library truncates a string longer than 32,767 characters. It raises an error for a string holding a control character U+0000-U+0008, U+000B-U+000C or U+000E-U+001F, after the cell has been created, so the sheet still grows by one row, the handler stops there, and no dialog and no new listing follow. It also rejects a row above 1,048,576. The model stores every string whole and writes any row, so `AddTask`, `UpdateTaskStatus` and `AddNotes` promise a completed write for such values too.
- Cell types are not modelled. Every cell is a string, and a cell never written reads `""` where the library would return `None`.
- Only the four task columns exist in the model. A loaded sheet with more columns is seen through its first four.
- The selection is the integer item id. Item ids travel as strings through the widget and are parsed back with `int`, and that round trip is not modelled. A selection must be an item currently shown, because the widget's focus can only be one of them.
