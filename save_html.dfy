/**
 * The saving half of the HTML exporter: name the file through the naming
 * helper, give the destination directory a trailing separator, check that the
 * directory exists, and write the whole page there. The operating system is an
 * abstract `FileSystem`; the separator and the naming helper are parameters.
 */
module SaveHtml {
  import opened Wrappers
  import opened HtmlDocument

  /** The suffix the exporter hands the naming helper, marking the HTML variant of an export. */
  const HtmlSuffix: string := "-ascii-art.html"

  /** What the naming helper returns: a file name, or its error. */
  datatype NameResult = Named(name: string) | NameError(cause: string)

  /** What a stat of a path reports, as far as the exporter tells the outcomes apart. */
  datatype StatResult = Found | NotExist | StatError(cause: string)

  datatype SaveError =
    | NamingError(cause: string)         // the naming helper's error, passed on unchanged
    | DestinationNotFound(path: string)  // the normalised directory does not exist
    | WriteError(cause: string)          // the write's error, passed on unchanged

  /** How a call ends: a nil error, an error, or the runtime panic of indexing an empty path. */
  datatype SaveResult = Saved | Failed(error: SaveError) | IndexPanic

  /** The text of each error; only the missing directory has text of the exporter's own. */
  function ErrorMessage(e: SaveError): string
  {
    match e
    case NamingError(cause) => cause
    case DestinationNotFound(path) => "save path " + path + " does not exist"
    case WriteError(cause) => cause
  }

  /**
   * The destination directory with a trailing separator: the path itself when
   * it already ends with one, otherwise the path and one separator.
   */
  function NormaliseDir(path: string, sep: char): (r: string)
    requires |path| > 0
    ensures |r| > 0 && r[|r| - 1] == sep
    ensures |path| <= |r| <= |path| + 1 && r[..|path|] == path
    ensures path[|path| - 1] == sep ==> r == path
  {
    if path[|path| - 1] != sep then path + [sep] else path
  }

  /** Normalising twice is normalising once. */
  lemma NormaliseIdempotent(path: string, sep: char)
    requires |path| > 0
    ensures NormaliseDir(NormaliseDir(path, sep), sep) == NormaliseDir(path, sep)
  {
  }

  /** A path without a trailing separator gets exactly one appended. */
  lemma NormaliseAppendsOne(path: string, sep: char)
    requires |path| > 0 && path[|path| - 1] != sep
    ensures NormaliseDir(path, sep) == path + [sep]
  {
    var r := NormaliseDir(path, sep);
    assert r != path;
    assert |r| == |path| + 1;
    assert r == r[..|path|] + [r[|path|]];
  }

  /** What the exporter decides to do, before touching the disk: stop with a result, or write to a target. */
  datatype Plan = Abort(result: SaveResult) | WriteTo(target: string)

  /**
   * The decision of the save step, given the naming helper's answer and what
   * stat reports: the naming error first, then the index of the last path
   * character, then the existence check on the normalised directory.
   */
  function PlanSave(named: NameResult, saveHtmlPath: string, sep: char, stat: string -> StatResult): (p: Plan)
    ensures p != Abort(Saved)
    ensures p == Abort(IndexPanic) <==> named.Named? && saveHtmlPath == ""
  {
    match named
    case NameError(cause) => Abort(Failed(NamingError(cause)))
    case Named(name) =>
      if |saveHtmlPath| == 0 then Abort(IndexPanic)
      else
        var dir := NormaliseDir(saveHtmlPath, sep);
        if stat(dir) != NotExist then WriteTo(dir + name)
        else Abort(Failed(DestinationNotFound(dir)))
  }

  /**
   * A write is planned exactly when the helper named the file, the path is
   * not empty and stat does not report the normalised directory missing; the
   * target is then that directory followed by the file name.
   */
  lemma PlanSaveWrites(named: NameResult, saveHtmlPath: string, sep: char, stat: string -> StatResult)
    ensures PlanSave(named, saveHtmlPath, sep, stat).WriteTo? <==>
            named.Named? && |saveHtmlPath| > 0 && stat(NormaliseDir(saveHtmlPath, sep)) != NotExist
    ensures PlanSave(named, saveHtmlPath, sep, stat).WriteTo? ==>
            PlanSave(named, saveHtmlPath, sep, stat).target == NormaliseDir(saveHtmlPath, sep) + named.name
  {
  }

  /**
   * The failure paths before any write: the helper's error comes back
   * unchanged whatever the path; an empty path panics; a missing directory
   * gives the "does not exist" error naming the normalised path.
   */
  lemma PlanSaveFailures(named: NameResult, saveHtmlPath: string, sep: char, stat: string -> StatResult)
    ensures named.NameError? ==> PlanSave(named, saveHtmlPath, sep, stat) == Abort(Failed(NamingError(named.cause)))
    ensures named.Named? && |saveHtmlPath| == 0 ==> PlanSave(named, saveHtmlPath, sep, stat) == Abort(IndexPanic)
    ensures named.Named? && |saveHtmlPath| > 0 && stat(NormaliseDir(saveHtmlPath, sep)) == NotExist ==>
            PlanSave(named, saveHtmlPath, sep, stat) ==
            Abort(Failed(DestinationNotFound(NormaliseDir(saveHtmlPath, sep))))
    ensures named.NameError? ==> ErrorMessage(PlanSave(named, saveHtmlPath, sep, stat).result.error) == named.cause
    ensures named.Named? && |saveHtmlPath| > 0 && stat(NormaliseDir(saveHtmlPath, sep)) == NotExist ==>
            ErrorMessage(PlanSave(named, saveHtmlPath, sep, stat).result.error) ==
            "save path " + NormaliseDir(saveHtmlPath, sep) + " does not exist"
  {
  }

  /**
   * A non-empty destination without its trailing separator leads to the same
   * decision as the same destination with it, and as its normalised form.
   */
  lemma TrailingSeparatorIrrelevant(named: NameResult, saveHtmlPath: string, sep: char, stat: string -> StatResult)
    requires |saveHtmlPath| > 0
    ensures saveHtmlPath[|saveHtmlPath| - 1] != sep ==>
            PlanSave(named, saveHtmlPath + [sep], sep, stat) == PlanSave(named, saveHtmlPath, sep, stat)
    ensures PlanSave(named, NormaliseDir(saveHtmlPath, sep), sep, stat) == PlanSave(named, saveHtmlPath, sep, stat)
  {
    var withSep := saveHtmlPath + [sep];
    assert NormaliseDir(withSep, sep) == withSep;
    if saveHtmlPath[|saveHtmlPath| - 1] != sep {
      NormaliseAppendsOne(saveHtmlPath, sep);
    }
  }

  /**
   * For the empty path the equivalence fails: once the file is named, the
   * empty path panics on its last-character index while the bare separator
   * does not.
   */
  lemma EmptyPathPanics(name: string, sep: char, stat: string -> StatResult)
    ensures PlanSave(Named(name), "", sep, stat) == Abort(IndexPanic)
    ensures PlanSave(Named(name), [sep], sep, stat) != Abort(IndexPanic)
  {
  }

  /** The "does not exist" message names its path unambiguously: two different paths never give the same message. */
  lemma DestinationMessageInjective(path: string, other: string)
    ensures ErrorMessage(DestinationNotFound(path)) == ErrorMessage(DestinationNotFound(other)) ==> path == other
  {
    SandwichInjective("save path ", path, other, " does not exist");
  }

  lemma SandwichInjective(a: string, p: string, q: string, b: string)
    ensures a + p + b == a + q + b ==> p == q
  {
    if a + p + b == a + q + b {
      assert |p| == |q|;
      assert p == (a + p + b)[|a|..|a| + |p|];
      assert q == (a + q + b)[|a|..|a| + |q|];
    }
  }

  /**
   * The operating system as the exporter sees it: file contents by full
   * path, the directories that exist, and the paths whose stat or write fails
   * with an error of its own.
   */
  class FileSystem {
    var files: map<string, string>
    const dirs: set<string>
    const statFaults: map<string, string>
    const writeFaults: map<string, string>

    constructor (files: map<string, string>, dirs: set<string>,
                 statFaults: map<string, string>, writeFaults: map<string, string>)
      ensures this.files == files && this.dirs == dirs
      ensures this.statFaults == statFaults && this.writeFaults == writeFaults
    {
      this.files := files;
      this.dirs := dirs;
      this.statFaults := statFaults;
      this.writeFaults := writeFaults;
    }

    /** A stat of a path: it exists, it is missing, or the stat fails for another reason. */
    function Stat(path: string): (r: StatResult)
      ensures r.Found? <==> path in dirs
      ensures r.StatError? ==> path in statFaults && r.cause == statFaults[path]
      ensures r == NotExist <==> path !in dirs && path !in statFaults
    {
      if path in dirs then Found
      else if path in statFaults then StatError(statFaults[path])
      else NotExist
    }

    /** Writes data as the whole content of path, replacing any earlier content, unless the write fails. */
    method WriteFile(path: string, data: string) returns (err: Option<string>)
      modifies this
      ensures err == if path in writeFaults then Some(writeFaults[path]) else None
      ensures files == if path in writeFaults then old(files) else old(files)[path := data]
    {
      if path in writeFaults {
        err := Some(writeFaults[path]);
      } else {
        files := files[path := data];
        err := None;
      }
    }
  }

  /**
   * Builds the page, names the file with the helper, normalises the
   * destination, and writes the page there if stat does not report the
   * directory missing. Returns the outcome and what goes to standard output,
   * the "Saved" line printed when onlySave is set.
   */
  method CreateHtmlToSave(fs: FileSystem, asciiArt: Grid, colored: bool, saveHtmlPath: string,
                          imagePath: string, urlImgName: string, saveBgColor: Rgba, onlySave: bool,
                          sep: char, createSaveFileName: (string, string, string) -> NameResult)
    returns (result: SaveResult, stdout: string)
    modifies fs
    ensures var plan := PlanSave(createSaveFileName(imagePath, urlImgName, HtmlSuffix), saveHtmlPath, sep, fs.Stat);
            match plan
            case Abort(r) =>
              result == r && fs.files == old(fs.files) && stdout == ""
            case WriteTo(target) =>
              if target in fs.writeFaults then
                result == Failed(WriteError(fs.writeFaults[target])) && fs.files == old(fs.files) && stdout == ""
              else
                result == Saved && fs.files == old(fs.files)[target := Document(asciiArt, colored, saveBgColor)] &&
                stdout == if onlySave then "Saved " + target + "\n" else ""
  {
    var html := BuildHtml(asciiArt, colored, saveBgColor);
    stdout := "";
    var named := createSaveFileName(imagePath, urlImgName, HtmlSuffix);
    if named.NameError? {
      return Failed(NamingError(named.cause)), stdout;
    }
    var saveFileName := named.name;
    if |saveHtmlPath| == 0 {
      return IndexPanic, stdout;
    }
    var path := saveHtmlPath;
    if path[|path| - 1] != sep {
      path := path + [sep];
    }
    if fs.Stat(path) != NotExist {
      var err := fs.WriteFile(path + saveFileName, html);
      if err.Some? {
        return Failed(WriteError(err.value)), stdout;
      } else if onlySave {
        stdout := "Saved " + path + saveFileName + "\n";
      }
      return Saved, stdout;
    } else {
      return Failed(DestinationNotFound(path)), stdout;
    }
  }
}
