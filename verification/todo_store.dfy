/** The task store: an ordered list of tasks mirrored to one backing file.
    The file system is a map from path to contents of the files that exist;
    opening a path that is not in it fails. */
module TodoStore {
  import opened Results
  import opened Text
  import opened Tasks

  type Disk = map<string, string>

  datatype TodoList = TodoList(tasks: seq<Task>, filePath: string)

  /** The failures the store reports. `TaskNotFound` and `FileNotFound` are
      both `io::ErrorKind::NotFound` in the source; `BadLine` is the panic on
      a line without the delimiter. */
  datatype Error = TaskNotFound | FileNotFound(path: string) | BadLine(line: string)

  /** The outcome of a mutating operation: the list and the disk after it,
      and whether it succeeded. */
  datatype Step = Step(list: TodoList, disk: Disk, status: Result<(), Error>)

  /** A fresh store for `path`, before anything is loaded. */
  function New(path: string): TodoList {
    TodoList([], path)
  }

  /** The backing file holds exactly the in-memory list: reading it back
      gives the same tasks in the same order. */
  ghost predicate Mirrors(list: TodoList, disk: Disk) {
    list.filePath in disk && Decode(disk[list.filePath]) == Ok(list.tasks)
  }

  /** `load`: read the backing file and append its tasks to the list. */
  function Load(list: TodoList, disk: Disk): (r: Result<TodoList, Error>)
    ensures r.Ok? <==> list.filePath in disk && NoBadLine(Lines(disk[list.filePath]))
    ensures r.Err? ==> r.error.FileNotFound? || r.error.BadLine?
    ensures r.Err? && r.error.FileNotFound? <==> list.filePath !in disk
    ensures r.Err? && r.error.BadLine? ==>
      list.filePath in disk && r.error.line in Lines(disk[list.filePath]) && IsBadLine(r.error.line)
    ensures r.Ok? ==> r.value.filePath == list.filePath
    ensures r.Ok? ==> |list.tasks| <= |r.value.tasks| && r.value.tasks[..|list.tasks|] == list.tasks
    ensures r.Ok? ==> Decode(disk[list.filePath]) == Ok(r.value.tasks[|list.tasks|..])
    ensures r.Ok? && list.tasks == [] ==> Mirrors(r.value, disk)
  {
    if list.filePath !in disk then
      Err(FileNotFound(list.filePath))
    else
      match Decode(disk[list.filePath])
      case Err(MissingDelimiter(line)) => Err(BadLine(line))
      case Ok(ts) =>
        assert (list.tasks + ts)[..|list.tasks|] == list.tasks;
        assert (list.tasks + ts)[|list.tasks|..] == ts;
        Ok(list.(tasks := list.tasks + ts))
  }

  /** `save`: open the existing backing file truncated and write every task
      into it; the file is never created and never appended to. */
  function Save(list: TodoList, disk: Disk): (r: Result<Disk, Error>)
    ensures r.Ok? <==> list.filePath in disk
    ensures r.Err? ==> r.error == FileNotFound(list.filePath)
    ensures r.Ok? ==> r.value == disk[list.filePath := Encode(list.tasks)]
    ensures r.Ok? ==> r.value.Keys == disk.Keys
    ensures r.Ok? ==> forall p :: p in disk && p != list.filePath ==> r.value[p] == disk[p]
    ensures r.Ok? && AllWellFormed(list.tasks) ==> Mirrors(list, r.value)
  {
    if list.filePath in disk then
      RoundTrip(list.tasks);
      Ok(disk[list.filePath := Encode(list.tasks)])
    else
      Err(FileNotFound(list.filePath))
  }

  /** `add`: a new, not yet completed task at the end. Nothing is written. */
  function Add(list: TodoList, description: string): (r: TodoList)
    ensures |r.tasks| == |list.tasks| + 1
    ensures r.tasks[..|list.tasks|] == list.tasks
    ensures r.tasks[|list.tasks|] == Task(description, false)
    ensures r.filePath == list.filePath
  {
    list.(tasks := list.tasks + [Task(description, false)])
  }

  /** One row of `list`: the 1-based number, the flag and the description. */
  datatype Entry = Entry(number: nat, completed: bool, description: string)

  /** `list`: every task, numbered from 1 in list order. */
  method List(list: TodoList) returns (entries: seq<Entry>)
    ensures |entries| == |list.tasks|
    ensures forall i :: 0 <= i < |entries| ==>
      entries[i] == Entry(i + 1, list.tasks[i].completed, list.tasks[i].description)
  {
    entries := [];
    var index := 0;
    while index < |list.tasks|
      invariant index <= |list.tasks|
      invariant |entries| == index
      invariant forall i :: 0 <= i < index ==>
        entries[i] == Entry(i + 1, list.tasks[i].completed, list.tasks[i].description)
    {
      var task := list.tasks[index];
      entries := entries + [Entry(index + 1, task.completed, task.description)];
      index := index + 1;
    }
  }

  /** Write the changed list; a failed write keeps the in-memory change and
      leaves the disk as it was. */
  function Persist(changed: TodoList, disk: Disk): (r: Step)
    ensures r.list == changed
    ensures r.status.Ok? <==> changed.filePath in disk
    ensures r.status.Ok? ==> r.disk == disk[changed.filePath := Encode(changed.tasks)]
    ensures r.status.Err? ==> r.disk == disk && r.status.error == FileNotFound(changed.filePath)
  {
    match Save(changed, disk)
    case Ok(written) => Step(changed, written, Ok(()))
    case Err(e) => Step(changed, disk, Err(e))
  }

  /** `complete`: mark the task at the 0-based `index` done and save. */
  function Complete(list: TodoList, index: nat, disk: Disk): (r: Step)
    ensures index >= |list.tasks| ==> r == Step(list, disk, Err(TaskNotFound))
    ensures r.status == Err(TaskNotFound) <==> index >= |list.tasks|
    ensures index < |list.tasks| && r.status.Err? ==> r.status.error == FileNotFound(list.filePath)
    ensures index < |list.tasks| ==>
      && |r.list.tasks| == |list.tasks|
      && r.list.filePath == list.filePath
      && r.list.tasks[index].completed
      && r.list.tasks[index].description == list.tasks[index].description
      && (forall j :: 0 <= j < |list.tasks| && j != index ==> r.list.tasks[j] == list.tasks[j])
      && (r.status.Ok? <==> list.filePath in disk)
    ensures r.status.Ok? ==> r.disk == disk[list.filePath := Encode(r.list.tasks)]
    ensures r.status.Err? ==> r.disk == disk
  {
    if index < |list.tasks| then
      var task := list.tasks[index];
      Persist(list.(tasks := list.tasks[index := task.(completed := true)]), disk)
    else
      Step(list, disk, Err(TaskNotFound))
  }

  /** `delete`: remove the task at the 0-based `index` and save. */
  function Delete(list: TodoList, index: nat, disk: Disk): (r: Step)
    ensures index >= |list.tasks| ==> r == Step(list, disk, Err(TaskNotFound))
    ensures r.status == Err(TaskNotFound) <==> index >= |list.tasks|
    ensures index < |list.tasks| && r.status.Err? ==> r.status.error == FileNotFound(list.filePath)
    ensures index < |list.tasks| ==>
      && |r.list.tasks| == |list.tasks| - 1
      && r.list.filePath == list.filePath
      && (forall j :: 0 <= j < index ==> r.list.tasks[j] == list.tasks[j])
      && (forall j :: index <= j < |r.list.tasks| ==> r.list.tasks[j] == list.tasks[j + 1])
      && multiset(r.list.tasks) + multiset{list.tasks[index]} == multiset(list.tasks)
      && (r.status.Ok? <==> list.filePath in disk)
    ensures r.status.Ok? ==> r.disk == disk[list.filePath := Encode(r.list.tasks)]
    ensures r.status.Err? ==> r.disk == disk
  {
    if index < |list.tasks| then
      var rest := list.tasks[..index] + list.tasks[index + 1..];
      assert list.tasks == list.tasks[..index] + [list.tasks[index]] + list.tasks[index + 1..];
      Persist(list.(tasks := rest), disk)
    else
      Step(list, disk, Err(TaskNotFound))
  }

  // ---------------------------------------------------------------------
  // The file keeps mirroring the list
  // ---------------------------------------------------------------------

  /** While the file mirrors the list, `complete` on an existing task always
      succeeds, and afterwards the file mirrors the changed list. */
  lemma CompleteKeepsMirror(list: TodoList, index: nat, disk: Disk)
    requires Mirrors(list, disk)
    ensures Complete(list, index, disk).status.Ok? <==> index < |list.tasks|
    ensures Mirrors(Complete(list, index, disk).list, Complete(list, index, disk).disk)
  {
  }

  /** While the file mirrors the list, `delete` on an existing task always
      succeeds, and afterwards the file mirrors the shortened list. */
  lemma DeleteKeepsMirror(list: TodoList, index: nat, disk: Disk)
    requires Mirrors(list, disk)
    ensures Delete(list, index, disk).status.Ok? <==> index < |list.tasks|
    ensures Mirrors(Delete(list, index, disk).list, Delete(list, index, disk).disk)
  {
  }

  /** `add` followed by `save` (what the `todo add` command does) keeps the
      file mirroring the list exactly when the new description has no line
      feed and no delimiter; otherwise reading the file back gives other
      tasks than the ones in memory. */
  lemma AddThenSaveMirrors(list: TodoList, description: string, disk: Disk)
    requires Mirrors(list, disk)
    ensures Save(Add(list, description), disk).Ok?
    ensures Mirrors(Add(list, description), Save(Add(list, description), disk).value)
        <==> WellFormed(description)
  {
  }
}
