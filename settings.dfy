/** How `main` in src/main.rs turns the command line and the merged
    configuration into the run's settings. Command line arguments take
    priority over the ruccofile, which takes priority over the embedded
    base configuration. */
module Settings {
  import opened Wrappers
  import opened Toml
  import MergeTables

  /** What the command line provides (`Args`). */
  datatype Args = Args(
    conf: Option<string>,
    output: Option<string>,
    nonrecursive: bool,
    inputs: seq<string>)

  /** The run's settings (`Config`). */
  datatype Config = Config(
    recursive: bool,
    entries: seq<string>,
    outputDir: string,
    languages: Table)

  /** Each `expect("malformed conf - …")` of `main`, which aborts the run. */
  datatype ConfError =
    | NoInput | InputNotTable
    | NoOutput | OutputNotTable
    | NoOutputDir | OutputDirNotString
    | NoRecursive | RecursiveNotBoolean
    | NoEntries | EntriesNotArray | EntryNotString
    | NoLanguages | LanguagesNotTable

  /** A key of the configuration that must hold a table. */
  function SubTable(conf: Table, key: string, missing: ConfError, notTable: ConfError): (r: Result<Table, ConfError>)
    ensures r.Ok? <==> key in conf && conf[key].Table?
    ensures r.Ok? ==> r.value == conf[key].entries
    ensures r.Err? ==> r.error == if key in conf then notTable else missing
  {
    match Get(conf, key)
    case None => Err(missing)
    case Some(v) =>
      match AsTable(v)
      case None => Err(notTable)
      case Some(t) => Ok(t)
  }

  /** The output directory: the command line's, else `output.dir`. */
  function OutputDir(args: Args, confOutput: Table): (r: Result<string, ConfError>)
    ensures args.output.Some? ==> r == Ok(args.output.value)
    ensures args.output.None? ==>
      (r.Ok? <==> "dir" in confOutput && confOutput["dir"].String?)
    ensures args.output.None? && r.Ok? ==> confOutput["dir"] == String(r.value)
    ensures r.Err? ==> r.error == if "dir" in confOutput then OutputDirNotString else NoOutputDir
  {
    if args.output.Some? then Ok(args.output.value)
    else
      match Get(confOutput, "dir")
      case None => Err(NoOutputDir)
      case Some(v) =>
        match AsStr(v)
        case None => Err(OutputDirNotString)
        case Some(d) => Ok(d)
  }

  /** Whether to recurse: `--non-recursive` forces false, else `input.recursive`. */
  function Recursive(args: Args, confInput: Table): (r: Result<bool, ConfError>)
    ensures args.nonrecursive ==> r == Ok(false)
    ensures !args.nonrecursive ==>
      (r.Ok? <==> "recursive" in confInput && confInput["recursive"].Boolean?)
    ensures !args.nonrecursive && r.Ok? ==> confInput["recursive"] == Boolean(r.value)
    ensures r.Err? ==> r.error == if "recursive" in confInput then RecursiveNotBoolean else NoRecursive
  {
    if args.nonrecursive then Ok(false)
    else
      match Get(confInput, "recursive")
      case None => Err(NoRecursive)
      case Some(v) =>
        match AsBool(v)
        case None => Err(RecursiveNotBoolean)
        case Some(b) => Ok(b)
  }

  /** The strings of an `input.entries` array, or the error of its first non-string. */
  function EntryStrings(items: seq<Value>): (r: Result<seq<string>, ConfError>)
    ensures r.Ok? <==> forall i | 0 <= i < |items| :: items[i].String?
    ensures r.Ok? ==> |r.value| == |items| && forall i | 0 <= i < |items| :: items[i] == String(r.value[i])
    ensures r.Err? ==> r.error == EntryNotString
  {
    if items == [] then Ok([])
    else
      match AsStr(items[0])
      case None => Err(EntryNotString)
      case Some(s) =>
        match EntryStrings(items[1..])
        case Err(e) => Err(e)
        case Ok(rest) => Ok([s] + rest)
  }

  /** The entries to process: non-empty command line inputs replace `input.entries`. */
  function Entries(args: Args, confInput: Table): (r: Result<seq<string>, ConfError>)
    ensures args.inputs != [] ==> r == Ok(args.inputs)
    ensures args.inputs == [] ==>
      (r.Ok? <==> "entries" in confInput && confInput["entries"].Array? &&
                  EntryStrings(confInput["entries"].items).Ok?)
    ensures args.inputs == [] && r.Ok? ==>
      "entries" in confInput && confInput["entries"].Array? &&
      EntryStrings(confInput["entries"].items) == Ok(r.value)
    ensures r.Err? && "entries" !in confInput ==> r.error == NoEntries
    ensures r.Err? && "entries" in confInput && !confInput["entries"].Array? ==> r.error == EntriesNotArray
    ensures r.Err? && "entries" in confInput && confInput["entries"].Array? ==> r.error == EntryNotString
  {
    if args.inputs == [] then
      match Get(confInput, "entries")
      case None => Err(NoEntries)
      case Some(v) =>
        match AsArray(v)
        case None => Err(EntriesNotArray)
        case Some(items) => EntryStrings(items)
    else Ok(args.inputs)
  }

  /** The `input` and `output` sections are both tables. */
  predicate HasSections(conf: Table) {
    "input" in conf && conf["input"].Table? && "output" in conf && conf["output"].Table?
  }

  /** `main`'s reading of the merged configuration, failing on the first
      malformed part in the order `main` consults them: `input`, `output`,
      then `output.dir`, `input.recursive` and `input.entries` only where
      the command line does not decide, and finally `languages`. */
  function Resolve(args: Args, conf: Table): (r: Result<Config, ConfError>)
    ensures r.Ok? ==> HasSections(conf) && "languages" in conf && conf["languages"].Table?
    ensures r.Ok? ==> r.value.languages == conf["languages"].entries
    ensures r.Ok? ==> Ok(r.value.outputDir) == OutputDir(args, conf["output"].entries)
    ensures r.Ok? ==> Ok(r.value.recursive) == Recursive(args, conf["input"].entries)
    ensures r.Ok? ==> Ok(r.value.entries) == Entries(args, conf["input"].entries)
    ensures (HasSections(conf) && "languages" in conf && conf["languages"].Table? &&
             OutputDir(args, conf["output"].entries).Ok? &&
             Recursive(args, conf["input"].entries).Ok? &&
             Entries(args, conf["input"].entries).Ok?) ==> r.Ok?
    // the first malformed part, in the order `main` reads them, is the one reported
    ensures "input" !in conf ==> r == Err(NoInput)
    ensures "input" in conf && !conf["input"].Table? ==> r == Err(InputNotTable)
    ensures "input" in conf && conf["input"].Table? && "output" !in conf ==> r == Err(NoOutput)
    ensures "input" in conf && conf["input"].Table? && "output" in conf && !conf["output"].Table? ==>
      r == Err(OutputNotTable)
    ensures HasSections(conf) && OutputDir(args, conf["output"].entries).Err? ==>
      r == Err(OutputDir(args, conf["output"].entries).error)
    ensures HasSections(conf) && OutputDir(args, conf["output"].entries).Ok? &&
            Recursive(args, conf["input"].entries).Err? ==>
      r == Err(Recursive(args, conf["input"].entries).error)
    ensures HasSections(conf) && OutputDir(args, conf["output"].entries).Ok? &&
            Recursive(args, conf["input"].entries).Ok? &&
            Entries(args, conf["input"].entries).Err? ==>
      r == Err(Entries(args, conf["input"].entries).error)
    ensures HasSections(conf) && OutputDir(args, conf["output"].entries).Ok? &&
            Recursive(args, conf["input"].entries).Ok? &&
            Entries(args, conf["input"].entries).Ok? && "languages" !in conf ==>
      r == Err(NoLanguages)
    ensures HasSections(conf) && OutputDir(args, conf["output"].entries).Ok? &&
            Recursive(args, conf["input"].entries).Ok? &&
            Entries(args, conf["input"].entries).Ok? &&
            "languages" in conf && !conf["languages"].Table? ==>
      r == Err(LanguagesNotTable)
    ensures r.Err? && r.error in {NoOutputDir, OutputDirNotString} ==> args.output.None?
    ensures r.Err? && r.error in {NoRecursive, RecursiveNotBoolean} ==> !args.nonrecursive
    ensures r.Err? && r.error in {NoEntries, EntriesNotArray, EntryNotString} ==> args.inputs == []
  {
    match SubTable(conf, "input", NoInput, InputNotTable)
    case Err(e) => Err(e)
    case Ok(confInput) =>
      match SubTable(conf, "output", NoOutput, OutputNotTable)
      case Err(e) => Err(e)
      case Ok(confOutput) =>
        match OutputDir(args, confOutput)
        case Err(e) => Err(e)
        case Ok(outputDir) =>
          match Recursive(args, confInput)
          case Err(e) => Err(e)
          case Ok(recursive) =>
            match Entries(args, confInput)
            case Err(e) => Err(e)
            case Ok(entries) =>
              match SubTable(conf, "languages", NoLanguages, LanguagesNotTable)
              case Err(e) => Err(e)
              case Ok(languages) => Ok(Config(recursive, entries, outputDir, languages))
  }

  /** The command line overrides whatever the configuration says: with an
      output, `--non-recursive` and inputs given, the settings are those
      of the command line as soon as the configuration has its tables. */
  lemma CommandLineOverrides(args: Args, conf: Table)
    requires args.output.Some? && args.nonrecursive && args.inputs != []
    requires "input" in conf && conf["input"].Table? && "output" in conf && conf["output"].Table?
    requires "languages" in conf && conf["languages"].Table?
    ensures Resolve(args, conf) ==
      Ok(Config(false, args.inputs, args.output.value, conf["languages"].entries))
  {
  }

  /** Priority ruccofile > base configuration: when no output is given on the
      command line and the ruccofile sets `output.dir`, the merged
      configuration yields the ruccofile's directory, whatever base says. */
  lemma {:induction false} RuccofileOverridesBase(args: Args, base: Table, custom: Table, dir: string)
    requires args.output.None?
    requires "output" in custom && custom["output"].Table?
    requires "dir" in custom["output"].entries && custom["output"].entries["dir"] == String(dir)
    ensures var conf := MergeTables.Merged(base, custom);
      "output" in conf && conf["output"].Table? &&
      OutputDir(args, conf["output"].entries) == Ok(dir)
  {
    var conf := MergeTables.Merged(base, custom);
    assert conf["output"] == MergeTables.MergedEntry(base, custom, "output");
    if "output" in base && base["output"].Table? {
      var out := MergeTables.Merged(base["output"].entries, custom["output"].entries);
      assert conf["output"] == Table(out);
      assert out["dir"] == MergeTables.MergedEntry(base["output"].entries, custom["output"].entries, "dir");
    }
  }

  /** Priority base configuration when the ruccofile is silent: a key the
      ruccofile does not set keeps base's value after the merge. */
  lemma {:induction false} BaseFillsGaps(args: Args, base: Table, custom: Table, dir: string)
    requires args.output.None?
    requires "output" in base && base["output"].Table?
    requires "dir" in base["output"].entries && base["output"].entries["dir"] == String(dir)
    requires "output" in custom ==> custom["output"].Table? && "dir" !in custom["output"].entries
    ensures var conf := MergeTables.Merged(base, custom);
      "output" in conf && conf["output"].Table? &&
      OutputDir(args, conf["output"].entries) == Ok(dir)
  {
    var conf := MergeTables.Merged(base, custom);
    assert conf["output"] == MergeTables.MergedEntry(base, custom, "output");
    if "output" in custom {
      var out := MergeTables.Merged(base["output"].entries, custom["output"].entries);
      assert conf["output"] == Table(out);
      assert out["dir"] == MergeTables.MergedEntry(base["output"].entries, custom["output"].entries, "dir");
    }
  }
}
