/** The local scanner: for each directory directly under a base folder, count
    the files directly inside its `completed` and `errorFile` folders and
    produce one text row per child, then write the table.

    The filesystem is a tree of named entries; a path is the list of names
    leading from the root to an entry. Children are ordered by name (plain
    code-point order), which is what sorting paths of one folder does on
    POSIX systems. */
module LocalScan {
  import opened Outcome
  import opened Strings
  import opened Order
  import opened Seqs
  import Csv

  /** A filesystem entry: a file, or a directory with its entries by name. */
  datatype Node = File | Dir(entries: map<string, Node>)

  /** The entry at `path` below `root`, if there is one. */
  function Lookup(root: Node, path: seq<string>): Option<Node>
    decreases |path|
  {
    if path == [] then Some(root)
    else
      match root
      case File => None
      case Dir(entries) => if path[0] in entries then Lookup(entries[path[0]], path[1..]) else None
  }

  /** The names of the plain files directly inside a directory. */
  function FileNames(entries: map<string, Node>): (r: set<string>)
    ensures r <= entries.Keys
  {
    set n | n in entries && entries[n].File?
  }

  /** The names of the directories directly inside a directory. */
  function DirNames(entries: map<string, Node>): (r: set<string>)
    ensures r <= entries.Keys
  {
    set n | n in entries && entries[n].Dir?
  }

  lemma SubsetCardinality(a: set<string>, b: set<string>)
    requires a <= b
    ensures |a| <= |b|
  {
    if a != {} {
      var x :| x in a;
      SubsetCardinality(a - {x}, b - {x});
    }
  }

  /** `count_files`: the number of files directly inside a folder; a folder
      that does not exist or is a file holds none. */
  function CountFiles(folder: Option<Node>): (r: nat)
    ensures folder.None? || folder.value.File? ==> r == 0
    ensures folder.Some? && folder.value.Dir? ==> r <= |folder.value.entries|
  {
    match folder
    case None => 0
    case Some(File) => 0
    case Some(Dir(entries)) =>
      SubsetCardinality(FileNames(entries), entries.Keys);
      |FileNames(entries)|
  }

  /** A new file directly inside the folder adds one to its count. */
  lemma CountFilesAddFile(entries: map<string, Node>, name: string)
    requires name !in entries
    ensures CountFiles(Some(Dir(entries[name := File]))) == CountFiles(Some(Dir(entries))) + 1
  {
    assert FileNames(entries[name := File]) == FileNames(entries) + {name};
  }

  /** A directory inside the folder, whatever it holds at any depth, leaves
      the count unchanged: only files directly inside are counted. */
  lemma CountFilesIgnoresDirs(entries: map<string, Node>, name: string, sub: map<string, Node>)
    requires name !in entries || entries[name].Dir?
    ensures CountFiles(Some(Dir(entries[name := Dir(sub)]))) == CountFiles(Some(Dir(entries)))
  {
    assert FileNames(entries[name := Dir(sub)]) == FileNames(entries);
  }

  /** A report row: the name, the two counts and their sum, as decimal text. */
  function CountsRow(name: string, processed: nat, error: nat): (row: Csv.Row)
    ensures |row| == 4 && row[0] == name
  {
    [name, NatToString(processed), NatToString(error), NatToString(processed + error)]
  }

  /** The row of one child directory: its name, the file counts of its
      `completed` and `errorFile` folders, and their sum. */
  function ChildRow(name: string, child: Node): (row: Csv.Row)
    ensures |row| == 4 && row[0] == name
  {
    CountsRow(name, CountFiles(Lookup(child, ["completed"])), CountFiles(Lookup(child, ["errorFile"])))
  }

  /** The rows of the named children, in the order given. */
  function RowsFor(entries: map<string, Node>, names: seq<string>): (rows: seq<Csv.Row>)
    requires forall i :: 0 <= i < |names| ==> names[i] in entries
    ensures |rows| == |names|
    ensures forall i :: 0 <= i < |names| ==> rows[i] == ChildRow(names[i], entries[names[i]])
  {
    if names == [] then []
    else RowsFor(entries, names[..|names| - 1]) + [ChildRow(names[|names| - 1], entries[names[|names| - 1]])]
  }

  /** `scan`: the rows for the base folder at `base` below `root`. */
  ghost function ScanRows(root: Node, base: seq<string>): seq<Csv.Row>
  {
    match Lookup(root, base)
    case Some(Dir(entries)) => RowsFor(entries, Sorted(DirNames(entries)))
    case _ => []
  }

  /** The names in `names` that are directories of `entries`, in order. */
  function DirsAmong(entries: map<string, Node>, names: seq<string>): (r: seq<string>)
    ensures forall x :: x in r <==> x in names && x in entries && entries[x].Dir?
  {
    if names == [] then []
    else
      var init := DirsAmong(entries, names[..|names| - 1]);
      var n := names[|names| - 1];
      assert forall x :: x in names <==> x in names[..|names| - 1] || x == n;
      if n in entries && entries[n].Dir? then init + [n] else init
  }

  lemma DirsAmongStep(entries: map<string, Node>, all: seq<string>, i: nat)
    requires i < |all|
    ensures DirsAmong(entries, all[..i + 1]) ==
      DirsAmong(entries, all[..i]) + if all[i] in entries && entries[all[i]].Dir? then [all[i]] else []
  {
    PrefixStep(all, i);
  }

  lemma RowsForAppend(entries: map<string, Node>, names: seq<string>, n: string)
    requires forall k :: 0 <= k < |names| ==> names[k] in entries
    requires n in entries
    ensures RowsFor(entries, names + [n]) == RowsFor(entries, names) + [ChildRow(n, entries[n])]
  {
    assert (names + [n])[..|names|] == names;
  }

  /** Keeping only the directories of a sorted listing keeps it sorted. */
  lemma {:induction false} DirsAmongSorted(entries: map<string, Node>, names: seq<string>)
    requires StrictlySorted(names)
    ensures StrictlySorted(DirsAmong(entries, names))
    decreases |names|
  {
    if names != [] {
      var init := names[..|names| - 1];
      var n := names[|names| - 1];
      DirsAmongSorted(entries, init);
      var r := DirsAmong(entries, init);
      if n in entries && entries[n].Dir? {
        forall i | 0 <= i < |r|
          ensures Less(r[i], n)
        {
          assert r[i] in init;
          var k :| 0 <= k < |init| && init[k] == r[i];
        }
        assert StrictlySorted(r + [n]);
      }
    }
  }

  /** `scan`: no rows when the base folder is missing or is a file; otherwise,
      visiting the entries in sorted order, one row per child directory. */
  method Scan(root: Node, base: seq<string>) returns (rows: seq<Csv.Row>)
    ensures rows == ScanRows(root, base)
  {
    var folder := Lookup(root, base);
    if folder.None? || folder.value.File? {
      return [];
    }
    var entries := folder.value.entries;
    var all := SortNames(entries.Keys);
    rows := DirRows(entries, all);
    DirsOfSorted(entries, all);
  }

  /** The rows of the directories among `all`, visiting `all` in order and
      skipping what is not a directory. */
  method DirRows(entries: map<string, Node>, all: seq<string>) returns (rows: seq<Csv.Row>)
    ensures rows == RowsFor(entries, DirsAmong(entries, all))
  {
    ghost var names: seq<string> := [];
    rows := [];
    for i := 0 to |all|
      invariant names == DirsAmong(entries, all[..i])
      invariant rows == RowsFor(entries, names)
    {
      DirsAmongStep(entries, all, i);
      var child := all[i];
      if child !in entries || !entries[child].Dir? {
        continue;
      }
      RowsForAppend(entries, names, child);
      rows := rows + [ChildRow(child, entries[child])];
      names := names + [child];
    }
    WholeSlice(all);
  }

  /** The directories among the sorted entry names are the sorted directory names. */
  lemma DirsOfSorted(entries: map<string, Node>, all: seq<string>)
    requires all == Sorted(entries.Keys)
    ensures DirsAmong(entries, all) == Sorted(DirNames(entries))
  {
    DirsAmongSorted(entries, all);
    SortedUnique(DirsAmong(entries, all), DirNames(entries));
  }

  /** The rows of a scan: none when the base folder is missing or is a file;
      otherwise one per child directory, names ascending, plain files skipped,
      and each row's total the sum of its two counts. */
  lemma ScanRowsShape(root: Node, base: seq<string>)
    ensures Lookup(root, base).None? || Lookup(root, base).value.File? ==> ScanRows(root, base) == []
    ensures Lookup(root, base).Some? && Lookup(root, base).value.Dir? ==>
      ChildRows(Lookup(root, base).value.entries, ScanRows(root, base))
  {
    match Lookup(root, base)
    case Some(Dir(entries)) =>
      var names := Sorted(DirNames(entries));
      RowsForSorted(entries, names, DirNames(entries));
    case _ =>
  }

  /** `rows` has one row per child directory of `entries`, ascending by name. */
  ghost predicate ChildRows(entries: map<string, Node>, rows: seq<Csv.Row>)
  {
    RowsOfChildren(entries, rows) && AscendingNames(rows) && CoversDirs(entries, rows)
  }

  /** Every row is the row of the child it names. */
  predicate RowsOfChildren(entries: map<string, Node>, rows: seq<Csv.Row>)
  {
    forall i :: 0 <= i < |rows| ==> |rows[i]| == 4 && rows[i][0] in entries && rows[i] == ChildRow(rows[i][0], entries[rows[i][0]])
  }

  /** The rows' names are strictly ascending. */
  predicate AscendingNames(rows: seq<Csv.Row>)
  {
    forall i, j :: 0 <= i < j < |rows| ==> |rows[i]| > 0 && |rows[j]| > 0 && Less(rows[i][0], rows[j][0])
  }

  /** There is one row per child directory, and every child directory has one. */
  ghost predicate CoversDirs(entries: map<string, Node>, rows: seq<Csv.Row>)
  {
    |rows| == |DirNames(entries)| &&
    forall n :: n in DirNames(entries) <==> exists i :: 0 <= i < |rows| && |rows[i]| > 0 && rows[i][0] == n
  }

  lemma RowsForSorted(entries: map<string, Node>, names: seq<string>, dirs: set<string>)
    requires dirs == DirNames(entries)
    requires names == Sorted(dirs)
    ensures ChildRows(entries, RowsFor(entries, names))
  {
    RowsForChildren(entries, names);
    RowsForAscending(entries, names);
    RowsForCovers(entries, names, dirs);
  }

  lemma RowsForChildren(entries: map<string, Node>, names: seq<string>)
    requires forall i :: 0 <= i < |names| ==> names[i] in entries
    ensures RowsOfChildren(entries, RowsFor(entries, names))
  {
  }

  lemma RowsForAscending(entries: map<string, Node>, names: seq<string>)
    requires forall i :: 0 <= i < |names| ==> names[i] in entries
    requires StrictlySorted(names)
    ensures AscendingNames(RowsFor(entries, names))
  {
  }

  lemma RowsForCovers(entries: map<string, Node>, names: seq<string>, dirs: set<string>)
    requires forall i :: 0 <= i < |names| ==> names[i] in entries
    requires |names| == |dirs| && forall x :: x in names <==> x in dirs
    requires dirs == DirNames(entries)
    ensures CoversDirs(entries, RowsFor(entries, names))
  {
    var rows := RowsFor(entries, names);
    forall n | n in dirs
      ensures exists i :: 0 <= i < |rows| && |rows[i]| > 0 && rows[i][0] == n
    {
      var i :| 0 <= i < |names| && names[i] == n;
      assert rows[i][0] == n;
    }
  }

  /** Each row carries decimal counts whose total is the sum of the other two. */
  lemma ChildRowTotal(name: string, child: Node)
    ensures var row := ChildRow(name, child);
      |row| == 4 && row[0] == name &&
      IsDecimal(row[1]) && IsDecimal(row[2]) && IsDecimal(row[3]) &&
      DecimalValue(row[1]) == CountFiles(Lookup(child, ["completed"])) &&
      DecimalValue(row[2]) == CountFiles(Lookup(child, ["errorFile"])) &&
      DecimalValue(row[3]) == DecimalValue(row[1]) + DecimalValue(row[2])
  {
    CountsRowReadsBack(name, CountFiles(Lookup(child, ["completed"])), CountFiles(Lookup(child, ["errorFile"])));
  }

  lemma CountsRowReadsBack(name: string, processed: nat, error: nat)
    ensures var row := CountsRow(name, processed, error);
      IsDecimal(row[1]) && IsDecimal(row[2]) && IsDecimal(row[3]) &&
      DecimalValue(row[1]) == processed && DecimalValue(row[2]) == error &&
      DecimalValue(row[3]) == processed + error
  {
    var row := CountsRow(name, processed, error);
    assert row[1] == NatToString(processed) && row[2] == NatToString(error) && row[3] == NatToString(processed + error);
    NatToStringRoundTrip(processed);
    NatToStringRoundTrip(error);
    NatToStringRoundTrip(processed + error);
  }

  /** `write_table_csv`: the header, then the given rows unchanged and in order. */
  method WriteTableCsv(rows: seq<Csv.Row>) returns (table: Csv.Table)
    ensures table == [Csv.Header] + rows
  {
    table := [Csv.Header];
    for i := 0 to |rows|
      invariant table == [Csv.Header] + rows[..i]
    {
      PrefixStep(rows, i);
      table := table + [rows[i]];
    }
    WholeSlice(rows);
  }

  /** The scan-and-write step of the command: scan, and write the table only
      when there is at least one row (None: no table file is written). */
  method ScanAndWrite(root: Node, base: seq<string>) returns (table: Option<Csv.Table>)
    ensures table.None? <==> ScanRows(root, base) == []
    ensures table.Some? ==> table.value == [Csv.Header] + ScanRows(root, base)
  {
    var rows := Scan(root, base);
    if rows == [] {
      return None;
    }
    var written := WriteTableCsv(rows);
    return Some(written);
  }
}
