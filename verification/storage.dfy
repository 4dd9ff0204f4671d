/**
  The pipeline's files under its base directory: `check_if_exists`, the
  history read behind the date dedup, and `save_to_dir` (make the
  directories, create or append the CSV file, hand the rows to the
  database).
 */
module Storage {
  import opened Wrappers
  import opened Calendar
  import opened Frames
  import opened Database

  /** A path below the base directory, one name per component. */
  type Path = seq<string>

  /** A CSV file: the header written when it was created, then every data row in the order written. */
  datatype CsvFile = CsvFile(header: seq<string>, rows: seq<Row>)

  /**
    The file after one `to_csv` call of `save_to_dir`: a file that does not
    exist yet is created with the frame's header; an existing one gets the
    rows appended without a header.
   */
  function Written(existing: Option<CsvFile>, f: Frame): (r: CsvFile)
    ensures r.header == if existing.Some? then existing.value.header else f.columns
    ensures var before := if existing.Some? then existing.value.rows else [];
      |r.rows| == |before| + |f.rows| && r.rows[..|before|] == before && r.rows[|before|..] == f.rows
  {
    match existing
    case None => CsvFile(f.columns, f.rows)
    case Some(file) => CsvFile(file.header, file.rows + f.rows)
  }

  /** The file after saving each frame in turn. */
  function SavedAll(existing: Option<CsvFile>, frames: seq<Frame>): Option<CsvFile>
    decreases |frames|
  {
    if frames == [] then existing else SavedAll(Some(Written(existing, frames[0])), frames[1..])
  }

  /** The rows of the frames, in order. */
  function AllRows(frames: seq<Frame>): seq<Row> {
    if frames == [] then [] else frames[0].rows + AllRows(frames[1..])
  }

  /** Appending to an existing file never touches its header; the rows accumulate in call order. */
  lemma {:induction false} SavedAllAppends(file: CsvFile, frames: seq<Frame>)
    ensures SavedAll(Some(file), frames) == Some(CsvFile(file.header, file.rows + AllRows(frames)))
    decreases |frames|
  {
    if frames != [] {
      var next := Written(Some(file), frames[0]);
      assert SavedAll(Some(file), frames) == SavedAll(Some(next), frames[1..]);
      SavedAllAppends(next, frames[1..]);
      assert AllRows(frames) == frames[0].rows + AllRows(frames[1..]);
      assert (file.rows + frames[0].rows) + AllRows(frames[1..]) == file.rows + AllRows(frames);
    } else {
      assert file.rows + AllRows(frames) == file.rows;
    }
  }

  /**
    Across repeated saves to a new file the header is written once, from
    the first frame, and the file holds every frame's rows in call order.
   */
  lemma SavedAllFromNothing(frames: seq<Frame>)
    requires frames != []
    ensures SavedAll(None, frames) == Some(CsvFile(frames[0].columns, AllRows(frames)))
  {
    SavedAllAppends(Written(None, frames[0]), frames[1..]);
  }

  /** The file system: the directories, and the files with their contents. */
  class FileSystem {
    var dirs: set<Path>
    var files: map<Path, CsvFile>

    /** No path is both a directory and a file. */
    ghost predicate Valid()
      reads this
    {
      dirs !! files.Keys
    }

    constructor (dirs: set<Path>, files: map<Path, CsvFile>)
      requires dirs !! files.Keys
      ensures this.dirs == dirs && this.files == files && Valid()
    {
      this.dirs := dirs;
      this.files := files;
    }
  }

  /** The contents of the file at `p`, if there is one. */
  function FileAt(files: map<Path, CsvFile>, p: Path): Option<CsvFile> {
    if p in files then Some(files[p]) else None
  }

  /** Some row's `name` cell is `v`. */
  function AnyCell(header: seq<string>, rows: seq<Row>, name: string, v: Cell): (r: bool)
    ensures r <==> exists x :: x in rows && Get(header, x, name) == Some(v)
  {
    if rows == [] then false
    else
      assert rows == [rows[0]] + rows[1..];
      Get(header, rows[0], name) == Some(v) || AnyCell(header, rows[1..], name, v)
  }

  /**
    `check_if_exists(path, checkparm)`: false when nothing exists at the
    path; otherwise the file is read and the result is whether `checkparm`
    is among its "File" column values.  A directory cannot be read, and a
    file without a "File" column raises a KeyError.
   */
  function CheckIfExists(fs: FileSystem, path: Path, checkparm: string): (r: Result<bool, Error>)
    reads fs
    ensures path !in fs.files && path !in fs.dirs ==> r == Ok(false)
    ensures path !in fs.files && path in fs.dirs ==> r == Err(OSError)
    ensures path in fs.files ==> (r.Err? <==> "File" !in fs.files[path].header)
    ensures path in fs.files && r.Err? ==> r.error == KeyError("File")
    ensures r == Ok(true) <==> (path in fs.files &&
      exists x :: x in fs.files[path].rows && Get(fs.files[path].header, x, "File") == Some(Text(checkparm)))
  {
    if path in fs.files then
      var file := fs.files[path];
      if "File" !in file.header then Err(KeyError("File"))
      else Ok(AnyCell(file.header, file.rows, "File", Text(checkparm)))
    else if path in fs.dirs then Err(OSError)
    else Ok(false)
  }

  /**
    The `Date` values of the history file at `path`, read and passed through
    `drop_duplicates()`: a missing file raises FileNotFoundError and a
    directory cannot be read.
   */
  function HistoryDates(fs: FileSystem, path: Path): (r: Result<set<Day>, Error>)
    reads fs
    ensures path !in fs.files && path !in fs.dirs ==> r == Err(FileNotFound)
    ensures path !in fs.files && path in fs.dirs ==> r == Err(OSError)
    ensures path in fs.files ==> r.Ok? && forall d :: d in r.value <==> exists x :: x in fs.files[path].rows && x.date == d
  {
    if path in fs.files then
      var rows := DropDuplicates(fs.files[path].rows);
      Ok(set x | x in rows :: x.date)
    else if path in fs.dirs then Err(OSError)
    else Err(FileNotFound)
  }

  /** The state `save_to_dir` acts on: directories, files and database tables. */
  datatype World = World(dirs: set<Path>, files: map<Path, CsvFile>, tables: map<Mapper, Table>)

  /** What `save_to_dir` returns (the database outcome, when a mapper is given) and the state it leaves. */
  datatype Saved = Saved(result: Result<Option<BatchResult>, Error>, world: World)

  /** `directory`, joined with `sub_dir` when one is given (an empty name counts as none). */
  function TargetDir(directory: string, subDir: string): Path {
    if subDir == "" then [directory] else [directory, subDir]
  }

  /**
    The reference semantics of `save_to_dir(df, directory, filename, mapper, sub_dir)`
    (what SaveWritesTarget and SaveHandsOff state).  A file in place of the
    target directory (or of `directory` itself) makes the write fail, as
    does a directory at the file's own path.  Otherwise the directories are
    made, the file is created or appended, and when a mapper is given the
    same rows go to `insert_into_database`, whose ConnectionError escapes
    after the file is written.  So a save fails only with an OSError or a
    ConnectionError, removes no directory, and leaves no path both a file
    and a directory.
   */
  function SaveEffect(w: World, df: Frame, directory: string, filename: string, mapper: Option<Mapper>,
                      subDir: string, engineAvailable: bool): (s: Saved)
    requires WellFormed(df)
    ensures w.dirs <= s.world.dirs
    ensures w.dirs !! w.files.Keys ==> s.world.dirs !! s.world.files.Keys
    ensures s.result.Ok? || s.result.error == OSError || s.result.error == ConnectionError
  {
    var dir := TargetDir(directory, subDir);
    var path := dir + [filename];
    if [directory] in w.files || dir in w.files then Saved(Err(OSError), w)
    else
      var dirs := if dir in w.dirs then w.dirs else w.dirs + {[directory], dir};
      if path in dirs then Saved(Err(OSError), w.(dirs := dirs))
      else
        var files := w.files[path := Written(FileAt(w.files, path), df)];
        match mapper
        case None => Saved(Ok(None), World(dirs, files, w.tables))
        case Some(m) =>
          if !engineAvailable then Saved(Err(ConnectionError), World(dirs, files, w.tables))
          else
            var (res, t) := Upsert(TableIn(w.tables, m), Records(df));
            Saved(Ok(Some(res)), World(dirs, files, if res == Failed then w.tables else w.tables[m := t]))
  }

  /**
    A save changes at most one file, the one at `directory[/sub_dir]/filename`:
    a new file gets the frame's header, an existing one keeps its header and
    gains the rows at the end.  It is written whenever the call succeeds or
    fails only on the database connection; an OSError leaves every file as
    it was.
   */
  lemma SaveWritesTarget(w: World, df: Frame, directory: string, filename: string, mapper: Option<Mapper>,
                         subDir: string, engineAvailable: bool)
    requires WellFormed(df)
    ensures var s := SaveEffect(w, df, directory, filename, mapper, subDir, engineAvailable);
      var path := TargetDir(directory, subDir) + [filename];
      (forall p :: p in w.files && p != path ==> p in s.world.files && s.world.files[p] == w.files[p]) &&
      (s.result == Err(OSError) ==> s.world.files == w.files) &&
      (s.result != Err(OSError) ==>
        s.world.files.Keys == w.files.Keys + {path} &&
        s.world.files[path].header == (if path in w.files then w.files[path].header else df.columns) &&
        s.world.files[path].rows == (if path in w.files then w.files[path].rows else []) + df.rows)
  {
  }

  /**
    The database sees the frame's rows if and only if a mapper is given and
    the file was written: then the mapper's table is the upsert of exactly
    `df.to_dict("records")`, or a ConnectionError escapes with the tables
    untouched; in every other case the tables are untouched.
   */
  lemma SaveHandsOff(w: World, df: Frame, directory: string, filename: string, mapper: Option<Mapper>,
                     subDir: string, engineAvailable: bool)
    requires WellFormed(df)
    ensures var s := SaveEffect(w, df, directory, filename, mapper, subDir, engineAvailable);
      (mapper.None? ==> s.world.tables == w.tables && (s.result.Ok? ==> s.result.value.None?)) &&
      (mapper.Some? && s.result.Ok? ==>
        var u := Upsert(TableIn(w.tables, mapper.value), Records(df));
        s.result.value == Some(u.0) &&
        s.world.tables == if u.0 == Failed then w.tables else w.tables[mapper.value := u.1]) &&
      (s.result.Err? ==> s.world.tables == w.tables) &&
      (s.result == Err(ConnectionError) ==> mapper.Some? && !engineAvailable)
  {
  }

  /**
    `save_to_dir`: acts on the file system and the database as SaveEffect
    says, leaves no path both a file and a directory, and leaves no
    database session open.
   */
  method SaveToDir(fs: FileSystem, store: Store, df: Frame, directory: string, filename: string,
                   mapper: Option<Mapper>, subDir: string, engineAvailable: bool)
    returns (r: Result<Option<BatchResult>, Error>)
    requires fs.Valid() && WellFormed(df)
    modifies fs, store
    ensures fs.Valid()
    ensures Saved(r, World(fs.dirs, fs.files, store.tables)) ==
      SaveEffect(World(old(fs.dirs), old(fs.files), old(store.tables)), df, directory, filename, mapper, subDir, engineAvailable)
    ensures store.openSessions == old(store.openSessions)
  {
    var dir := TargetDir(directory, subDir);
    if [directory] in fs.files || dir in fs.files {
      return Err(OSError);
    }
    if dir !in fs.dirs {
      fs.dirs := fs.dirs + {[directory], dir};
    }
    var path := dir + [filename];
    if path in fs.dirs {
      return Err(OSError);
    }
    fs.files := fs.files[path := Written(FileAt(fs.files, path), df)];
    match mapper
    case None =>
      r := Ok(None);
    case Some(m) =>
      var res := InsertIntoDatabase(store, m, Records(df), engineAvailable);
      match res
      case Err(e) =>
        r := Err(e);
      case Ok(b) =>
        r := Ok(Some(b));
  }
}
