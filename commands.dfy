// The decision rules of the pharmer command-line tool: which writer and
// which query parser a file name selects, the input/output count rule,
// the per-file plans of the pharma and dbsearch commands, how the database
// creators split the input files and number the molecules, how the
// server-directory build spreads ligands over directories, and where the
// server takes its databases from.  File contents, OpenBabel and the
// processes the tool forks are not modelled: the facts they would supply
// (whether a path exists, whether OpenBabel knows a format, how many
// molecules a reader yields) are parameters.

module PharmerMain {
  import opened Paths

  datatype Option<T> = None | Some(value: T)

  datatype Result<T> = Ok(value: T) | Err(msg: string)

  // ---------------------------------------------------------------------------
  // First error wins

  /** The values of rs if all are Ok, otherwise the first error. */
  function Collect<T>(rs: seq<Result<T>>): (r: Result<seq<T>>)
  {
    if rs == [] then Ok([])
    else
      match Collect(rs[..|rs| - 1])
      case Err(m) => Err(m)
      case Ok(vs) =>
        match rs[|rs| - 1]
        case Err(m) => Err(m)
        case Ok(v) => Ok(vs + [v])
  }

  /** Collect succeeds exactly when every entry is Ok, and then yields their values in order. */
  lemma {:induction false} CollectOk<T>(rs: seq<Result<T>>)
    ensures Collect(rs).Ok? <==> forall i :: 0 <= i < |rs| ==> rs[i].Ok?
    ensures Collect(rs).Ok? ==> |Collect(rs).value| == |rs|
                                && forall i :: 0 <= i < |rs| ==> rs[i] == Ok(Collect(rs).value[i])
  {
    if rs != [] {
      var init := rs[..|rs| - 1];
      CollectOk(init);
      assert forall i :: 0 <= i < |init| ==> init[i] == rs[i];
    }
  }

  /** A failing Collect reports the first failing entry. */
  lemma {:induction false} CollectErr<T>(rs: seq<Result<T>>)
    requires Collect(rs).Err?
    ensures exists i :: 0 <= i < |rs| && rs[i] == Err(Collect(rs).msg)
                        && forall j :: 0 <= j < i ==> rs[j].Ok?
  {
    var init := rs[..|rs| - 1];
    assert forall i :: 0 <= i < |init| ==> init[i] == rs[i];
    if Collect(init).Err? {
      CollectErr(init);
    } else {
      CollectOk(init);
      assert rs[|rs| - 1] == Err(Collect(rs).msg);
    }
  }

  /** One step of a loop that collects rs in order. */
  lemma CollectStep<T>(rs: seq<Result<T>>, k: nat, acc: seq<T>)
    requires k < |rs| && Collect(rs[..k]) == Ok(acc)
    ensures rs[k].Ok? ==> Collect(rs[..k + 1]) == Ok(acc + [rs[k].value])
    ensures rs[k].Err? ==> Collect(rs[..k + 1]) == Err(rs[k].msg)
  {
    assert rs[..k + 1][..k] == rs[..k];
  }

  /** Once a prefix fails, the whole fails with the same error. */
  lemma {:induction false} CollectErrPrefix<T>(rs: seq<Result<T>>, k: nat)
    requires k <= |rs| && Collect(rs[..k]).Err?
    ensures Collect(rs) == Collect(rs[..k])
    decreases |rs| - k
  {
    if k < |rs| {
      assert rs[..k + 1][..k] == rs[..k];
      CollectErrPrefix(rs, k + 1);
    } else {
      assert rs[..k] == rs;
    }
  }

  // ---------------------------------------------------------------------------
  // The output count rule (pharma and dbsearch)

  /** Output files are optional, but if any are given there is one per input. */
  predicate OutputCountOk(nOutputs: nat, nInputs: nat)
  {
    nOutputs == 0 || nOutputs == nInputs
  }

  /** The output file of input i, if outputs were given. */
  function OutputFor(outputs: seq<string>, i: nat): (o: Option<string>)
    requires |outputs| == 0 || i < |outputs|
    ensures o.None? <==> |outputs| == 0
    ensures o.Some? ==> o.value == outputs[i]
  {
    if |outputs| == 0 then None else Some(outputs[i])
  }

  // ---------------------------------------------------------------------------
  // pharma: output writers and query parsers

  datatype PharmaWriter = NoOutput | TextOutput | JsonOutput | SdfOutput

  /** The writer an output extension selects. */
  function PharmaWriterFor(ext: string): (r: Result<PharmaWriter>)
  {
    if ext == ".txt" || ext == "" then Ok(TextOutput)
    else if ext == ".json" then Ok(JsonOutput)
    else if ext == ".sdf" then Ok(SdfOutput)
    else Err("Unsupported output format")
  }

  /** The extension a writer's files carry. */
  function WriterExtension(w: PharmaWriter): (ext: string)
    requires w != NoOutput
    ensures IsExtension(ext)
  {
    match w
    case TextOutput => ".txt"
    case JsonOutput => ".json"
    case SdfOutput => ".sdf"
  }

  /**
   * A file named with a writer's extension selects that writer, and a file
   * with no extension gets text output.
   */
  lemma WriterRoundTrip(base: string, w: PharmaWriter)
    requires w != NoOutput
    ensures PharmaWriterFor(Extension(base + WriterExtension(w))) == Ok(w)
    ensures '.' !in Leaf(base) ==> PharmaWriterFor(Extension(base)) == Ok(TextOutput)
  {
    var ext := WriterExtension(w);
    ExtensionOfAppend(base, ext);
    match w
    case TextOutput => assert ext == ".txt";
    case JsonOutput => assert ext == ".json" && ext != ".txt" && ext != "";
    case SdfOutput => assert ext == ".sdf" && ext != ".txt" && ext != "" && ext != ".json";
  }

  /** Exactly four extensions are accepted for pharma output, and none selects NoOutput. */
  lemma WriterAccepts(ext: string)
    ensures PharmaWriterFor(ext).Ok? <==> ext in {".txt", "", ".json", ".sdf"}
    ensures PharmaWriterFor(ext).Ok? ==> PharmaWriterFor(ext).value != NoOutput
    ensures PharmaWriterFor(ext).Err? ==> PharmaWriterFor(ext).msg == "Unsupported output format"
  {
  }

  datatype QueryParser = JsonParser | Ph4Parser | PmlParser | TextParser | MolRecognition

  /** The extensions of the pharmacophore query formats. */
  predicate IsQueryExtension(ext: string)
  {
    ext == ".json" || ext == ".ph4" || ext == ".query" || ext == ".txt" || ext == ".pml"
  }

  /** The parser an input extension selects; any other file is a molecule to analyse. */
  function QueryParserFor(ext: string): (p: QueryParser)
  {
    if IsQueryExtension(ext) then
      if ext == ".json" || ext == ".query" then JsonParser
      else if ext == ".ph4" then Ph4Parser
      else if ext == ".pml" then PmlParser
      else TextParser
    else MolRecognition
  }

  /** The extensions each parser reads. */
  function ParserExtensions(p: QueryParser): (exts: set<string>)
  {
    match p
    case JsonParser => {".json", ".query"}
    case Ph4Parser => {".ph4"}
    case PmlParser => {".pml"}
    case TextParser => {".txt"}
    case MolRecognition => {}
  }

  /**
   * A query file is read by the parser of its extension, and only query
   * extensions reach a parser: everything else goes to molecule recognition.
   */
  lemma ParserDispatch(ext: string, p: QueryParser)
    requires p != MolRecognition
    ensures QueryParserFor(ext) == p <==> ext in ParserExtensions(p)
    ensures QueryParserFor(ext) == MolRecognition <==> !IsQueryExtension(ext)
  {
  }

  /** What pharma does with one input: how it is read and how its points are written. */
  datatype PharmaJob = PharmaJob(input: string, parser: QueryParser, writer: PharmaWriter)

  /**
   * The decisions for one input: the writer from the output's extension
   * (none without an output), then the parser from the input's extension;
   * a molecule file must be in a format molFormat knows.
   */
  function PharmaJobFor(input: string, output: Option<string>, molFormat: string -> bool): (r: Result<PharmaJob>)
  {
    var writer := if output.None? then Ok(NoOutput) else PharmaWriterFor(Extension(output.value));
    if writer.Err? then Err(writer.msg)
    else
      var parser := QueryParserFor(Extension(input));
      if parser == MolRecognition && !molFormat(input) then Err("Invalid input file format " + input)
      else Ok(PharmaJob(input, parser, writer.value))
  }

  /** A successful decision reads the input with the parser of its extension and writes with the writer of the output's. */
  lemma PharmaJobOk(input: string, output: Option<string>, molFormat: string -> bool)
    requires PharmaJobFor(input, output, molFormat).Ok?
    ensures var job := PharmaJobFor(input, output, molFormat).value;
            && job.input == input
            && job.parser == QueryParserFor(Extension(input))
            && (output.None? ==> job.writer == NoOutput)
            && (output.Some? ==> Ok(job.writer) == PharmaWriterFor(Extension(output.value)))
  {
    var parser := QueryParserFor(Extension(input));
    match output
    case None =>
      assert PharmaJobFor(input, output, molFormat).value == PharmaJob(input, parser, NoOutput);
    case Some(o) =>
      var writer := PharmaWriterFor(Extension(o));
      assert PharmaJobFor(input, output, molFormat).value == PharmaJob(input, parser, writer.value);
  }

  function PharmaDecisions(inputs: seq<string>, outputs: seq<string>, molFormat: string -> bool): (rs: seq<Result<PharmaJob>>)
    requires OutputCountOk(|outputs|, |inputs|)
    ensures |rs| == |inputs|
  {
    seq(|inputs|, i requires 0 <= i < |inputs| => PharmaJobFor(inputs[i], OutputFor(outputs, i), molFormat))
  }

  /** The pharma command: the count rule, then each input in turn until the first error. */
  function PharmaPlan(inputs: seq<string>, outputs: seq<string>, molFormat: string -> bool): (r: Result<seq<PharmaJob>>)
  {
    if !OutputCountOk(|outputs|, |inputs|) then Err("Number of outputs must equal number of inputs.")
    else Collect(PharmaDecisions(inputs, outputs, molFormat))
  }

  /**
   * A successful plan has one job per input, reading it with the parser of
   * its extension and writing with the writer of its output's extension, or
   * not at all when no outputs were given.
   */
  lemma PharmaPlanOk(inputs: seq<string>, outputs: seq<string>, molFormat: string -> bool)
    requires PharmaPlan(inputs, outputs, molFormat).Ok?
    ensures OutputCountOk(|outputs|, |inputs|)
    ensures var jobs := PharmaPlan(inputs, outputs, molFormat).value;
            |jobs| == |inputs| &&
            forall i :: 0 <= i < |inputs| ==>
              && jobs[i].input == inputs[i]
              && jobs[i].parser == QueryParserFor(Extension(inputs[i]))
              && (|outputs| == 0 ==> jobs[i].writer == NoOutput)
              && (|outputs| > 0 ==> Ok(jobs[i].writer) == PharmaWriterFor(Extension(outputs[i])))
  {
    var rs := PharmaDecisions(inputs, outputs, molFormat);
    CollectOk(rs);
    var jobs := Collect(rs).value;
    forall i | 0 <= i < |inputs|
      ensures jobs[i].input == inputs[i]
      ensures jobs[i].parser == QueryParserFor(Extension(inputs[i]))
      ensures |outputs| == 0 ==> jobs[i].writer == NoOutput
      ensures |outputs| > 0 ==> Ok(jobs[i].writer) == PharmaWriterFor(Extension(outputs[i]))
    {
      var output := OutputFor(outputs, i);
      assert rs[i] == PharmaJobFor(inputs[i], output, molFormat) == Ok(jobs[i]);
      PharmaJobOk(inputs[i], output, molFormat);
    }
  }

  /**
   * The plan fails exactly when the count rule fails or some input's
   * decisions fail, and then with the message of the first failing input.
   */
  lemma PharmaPlanErr(inputs: seq<string>, outputs: seq<string>, molFormat: string -> bool)
    requires OutputCountOk(|outputs|, |inputs|)
    ensures PharmaPlan(inputs, outputs, molFormat).Err? <==>
              exists i :: 0 <= i < |inputs| && PharmaJobFor(inputs[i], OutputFor(outputs, i), molFormat).Err?
    ensures PharmaPlan(inputs, outputs, molFormat).Err? ==>
              exists i :: 0 <= i < |inputs|
                && PharmaJobFor(inputs[i], OutputFor(outputs, i), molFormat) == Err(PharmaPlan(inputs, outputs, molFormat).msg)
                && forall j :: 0 <= j < i ==> PharmaJobFor(inputs[j], OutputFor(outputs, j), molFormat).Ok?
  {
    var rs := PharmaDecisions(inputs, outputs, molFormat);
    CollectOk(rs);
    if Collect(rs).Err? {
      CollectErr(rs);
      var i :| 0 <= i < |rs| && rs[i] == Err(Collect(rs).msg) && forall j :: 0 <= j < i ==> rs[j].Ok?;
      assert rs[i] == PharmaJobFor(inputs[i], OutputFor(outputs, i), molFormat);
      forall j | 0 <= j < i
        ensures PharmaJobFor(inputs[j], OutputFor(outputs, j), molFormat).Ok?
      {
        assert rs[j] == PharmaJobFor(inputs[j], OutputFor(outputs, j), molFormat);
      }
    } else {
      forall i | 0 <= i < |inputs|
        ensures PharmaJobFor(inputs[i], OutputFor(outputs, i), molFormat).Ok?
      {
        assert rs[i] == PharmaJobFor(inputs[i], OutputFor(outputs, i), molFormat);
      }
    }
  }

  /** The pharma command's loop over its inputs, stopping at the first error. */
  method HandlePharma(inputs: seq<string>, outputs: seq<string>, molFormat: string -> bool)
    returns (r: Result<seq<PharmaJob>>)
    ensures r == PharmaPlan(inputs, outputs, molFormat)
  {
    if |outputs| > 0 && |outputs| != |inputs| {
      return Err("Number of outputs must equal number of inputs.");
    }
    ghost var rs := PharmaDecisions(inputs, outputs, molFormat);
    var jobs: seq<PharmaJob> := [];
    for i := 0 to |inputs|
      invariant Collect(rs[..i]) == Ok(jobs)
    {
      var output := if |outputs| > 0 then Some(outputs[i]) else None;
      var job := PharmaJobFor(inputs[i], output, molFormat);
      assert rs[i] == job;
      CollectStep(rs, i, jobs);
      if job.Err? {
        CollectErrPrefix(rs, i + 1);
        return Err(job.msg);
      }
      jobs := jobs + [job.value];
    }
    assert rs[..|inputs|] == rs;
    return Ok(jobs);
  }

  // ---------------------------------------------------------------------------
  // dbsearch

  datatype SearchOutput = NoFile | CompressedMols | Mols | TextData

  /** What an output extension of dbsearch writes: ".gz" is compressed SDF. */
  function SearchOutputFor(ext: string): (r: Result<SearchOutput>)
  {
    if ext != ".sdf" && ext != ".txt" && ext != "" && ext != ".gz" then
      Err("Invalid output format.  Support only .sdf and .txt")
    else if ext == ".gz" then Ok(CompressedMols)
    else if ext != ".sdf" then Ok(TextData)
    else Ok(Mols)
  }

  /** The extension dbsearch's output kinds carry. */
  function SearchExtension(o: SearchOutput): (ext: string)
    requires o != NoFile
    ensures IsExtension(ext)
  {
    match o
    case CompressedMols => ".gz"
    case Mols => ".sdf"
    case TextData => ".txt"
  }

  /** A result file named with an output kind's extension gets that kind; no extension means text. */
  lemma SearchOutputRoundTrip(base: string, o: SearchOutput)
    requires o != NoFile
    ensures SearchOutputFor(Extension(base + SearchExtension(o))) == Ok(o)
    ensures '.' !in Leaf(base) ==> SearchOutputFor(Extension(base)) == Ok(TextData)
  {
    var ext := SearchExtension(o);
    ExtensionOfAppend(base, ext);
    match o
    case CompressedMols => assert ext == ".gz";
    case Mols => assert ext == ".sdf" && ext != ".gz";
    case TextData => assert ext == ".txt" && ext != ".sdf" && ext != ".gz";
  }

  /** Exactly four output extensions are accepted, and only ".gz" and ".sdf" write molecules. */
  lemma SearchOutputAccepts(ext: string)
    ensures SearchOutputFor(ext).Ok? <==> ext in {".sdf", ".txt", "", ".gz"}
    ensures SearchOutputFor(ext) == Ok(TextData) <==> ext == ".txt" || ext == ""
    ensures SearchOutputFor(ext).Ok? ==> SearchOutputFor(ext).value != NoFile
  {
  }

  /** What dbsearch does with one query file. */
  datatype SearchJob = SearchJob(query: string, output: SearchOutput)

  /**
   * The decisions for one query file: its extension must be a query format
   * (validQuery), the query read from it must be valid (queryError gives the
   * message of an invalid one), then the output extension selects what to
   * write.
   */
  function SearchJobFor(query: string, output: Option<string>, validQuery: string -> bool, queryError: string -> Option<string>)
    : (r: Result<SearchJob>)
    ensures r.Ok? ==> r.value.query == query
  {
    if !validQuery(Extension(query)) then Err("Invalid extension for query file: " + query)
    else if queryError(query).Some? then Err(queryError(query).value)
    else if output.None? then Ok(SearchJob(query, NoFile))
    else
      var o := SearchOutputFor(Extension(output.value));
      if o.Err? then Err(o.msg) else Ok(SearchJob(query, o.value))
  }

  function SearchDecisions(queries: seq<string>, outputs: seq<string>, validQuery: string -> bool, queryError: string -> Option<string>): (rs: seq<Result<SearchJob>>)
    requires OutputCountOk(|outputs|, |queries|)
    ensures |rs| == |queries|
  {
    seq(|queries|, i requires 0 <= i < |queries| => SearchJobFor(queries[i], OutputFor(outputs, i), validQuery, queryError))
  }

  /** The dbsearch command: databases, then at least one query, then the count rule, then each query. */
  function SearchPlan(databases: seq<string>, queries: seq<string>, outputs: seq<string>,
                      validQuery: string -> bool, queryError: string -> Option<string>): (r: Result<seq<SearchJob>>)
  {
    if |databases| == 0 then Err("Require database directory path.")
    else if |queries| < 1 then Err("Need input pharmacophore query file(s).")
    else if !OutputCountOk(|outputs|, |queries|) then Err("Number of outputs must equal number of inputs")
    else Collect(SearchDecisions(queries, outputs, validQuery, queryError))
  }

  /**
   * A successful search has a database, at least one query, and one job per
   * query.  Each query has a query format and is valid, and its output kind
   * is the one its output file's extension selects.
   */
  lemma SearchPlanOk(databases: seq<string>, queries: seq<string>, outputs: seq<string>, validQuery: string -> bool, queryError: string -> Option<string>)
    requires SearchPlan(databases, queries, outputs, validQuery, queryError).Ok?
    ensures |databases| > 0 && |queries| > 0 && OutputCountOk(|outputs|, |queries|)
    ensures var jobs := SearchPlan(databases, queries, outputs, validQuery, queryError).value;
            |jobs| == |queries| &&
            forall i :: 0 <= i < |queries| ==>
              && jobs[i].query == queries[i] && validQuery(Extension(queries[i])) && queryError(queries[i]).None?
              && (|outputs| == 0 ==> jobs[i].output == NoFile)
              && (|outputs| > 0 ==> Ok(jobs[i].output) == SearchOutputFor(Extension(outputs[i])))
  {
    var rs := SearchDecisions(queries, outputs, validQuery, queryError);
    CollectOk(rs);
    var jobs := SearchPlan(databases, queries, outputs, validQuery, queryError).value;
    forall i | 0 <= i < |queries|
      ensures jobs[i].query == queries[i] && validQuery(Extension(queries[i])) && queryError(queries[i]).None?
      ensures |outputs| == 0 ==> jobs[i].output == NoFile
      ensures |outputs| > 0 ==> Ok(jobs[i].output) == SearchOutputFor(Extension(outputs[i]))
    {
      assert rs[i] == SearchJobFor(queries[i], OutputFor(outputs, i), validQuery, queryError);
    }
  }

  /** A search with queries, databases and matching counts fails only for the first bad query or output. */
  lemma SearchPlanErr(databases: seq<string>, queries: seq<string>, outputs: seq<string>, validQuery: string -> bool, queryError: string -> Option<string>)
    requires |databases| > 0 && |queries| > 0 && OutputCountOk(|outputs|, |queries|)
    requires SearchPlan(databases, queries, outputs, validQuery, queryError).Err?
    ensures exists i :: 0 <= i < |queries|
              && SearchJobFor(queries[i], OutputFor(outputs, i), validQuery, queryError) == Err(SearchPlan(databases, queries, outputs, validQuery, queryError).msg)
              && forall j :: 0 <= j < i ==> SearchJobFor(queries[j], OutputFor(outputs, j), validQuery, queryError).Ok?
  {
    var rs := SearchDecisions(queries, outputs, validQuery, queryError);
    CollectErr(rs);
    var i :| 0 <= i < |rs| && rs[i] == Err(Collect(rs).msg) && forall j :: 0 <= j < i ==> rs[j].Ok?;
    assert rs[i] == SearchJobFor(queries[i], OutputFor(outputs, i), validQuery, queryError);
    forall j | 0 <= j < i
      ensures SearchJobFor(queries[j], OutputFor(outputs, j), validQuery, queryError).Ok?
    {
      assert rs[j] == SearchJobFor(queries[j], OutputFor(outputs, j), validQuery, queryError);
    }
  }

  /** The dbsearch command's checks and its loop over the query files. */
  method HandleSearch(databases: seq<string>, queries: seq<string>, outputs: seq<string>, validQuery: string -> bool, queryError: string -> Option<string>)
    returns (r: Result<seq<SearchJob>>)
    ensures r == SearchPlan(databases, queries, outputs, validQuery, queryError)
  {
    if |databases| == 0 {
      return Err("Require database directory path.");
    }
    if |queries| < 1 {
      return Err("Need input pharmacophore query file(s).");
    }
    if |outputs| > 0 && |outputs| != |queries| {
      return Err("Number of outputs must equal number of inputs");
    }
    ghost var rs := SearchDecisions(queries, outputs, validQuery, queryError);
    var jobs: seq<SearchJob> := [];
    for i := 0 to |queries|
      invariant Collect(rs[..i]) == Ok(jobs)
    {
      var output := if |outputs| > 0 then Some(outputs[i]) else None;
      var job := SearchJobFor(queries[i], output, validQuery, queryError);
      assert rs[i] == job;
      CollectStep(rs, i, jobs);
      if job.Err? {
        CollectErrPrefix(rs, i + 1);
        return Err(job.msg);
      }
      jobs := jobs + [job.value];
    }
    assert rs[..|queries|] == rs;
    return Ok(jobs);
  }

  // ---------------------------------------------------------------------------
  // Existing paths (server prefixes and server-directory prefixes)

  /** The entries of lines that exist, in order. */
  function Existing(lines: seq<string>, pathExists: string -> bool): (kept: seq<string>)
    ensures |kept| <= |lines|
  {
    if lines == [] then []
    else Existing(lines[..|lines| - 1], pathExists)
         + (if pathExists(lines[|lines| - 1]) then [lines[|lines| - 1]] else [])
  }

  /** A line is kept exactly when it exists, and every kept entry exists. */
  lemma {:induction false} ExistingMembers(lines: seq<string>, pathExists: string -> bool)
    ensures forall x :: x in Existing(lines, pathExists) <==> x in lines && pathExists(x)
    ensures forall k :: 0 <= k < |Existing(lines, pathExists)| ==> pathExists(Existing(lines, pathExists)[k])
  {
    if lines != [] {
      var init := lines[..|lines| - 1];
      ExistingMembers(init, pathExists);
      assert lines == init + [lines[|lines| - 1]];
    }
  }

  /** Reads the prefix lines, keeping the paths that exist and warning about the others. */
  method FilterExisting(lines: seq<string>, pathExists: string -> bool) returns (kept: seq<string>)
    ensures kept == Existing(lines, pathExists)
  {
    kept := [];
    for i := 0 to |lines|
      invariant kept == Existing(lines[..i], pathExists)
    {
      assert lines[..i + 1][..i] == lines[..i];
      if pathExists(lines[i]) {
        kept := kept + [lines[i]];
      }
    }
    assert lines[..|lines|] == lines;
  }

  // ---------------------------------------------------------------------------
  // server: where the databases come from

  datatype ServerSource = DbDirs(dirs: seq<string>) | PrefixDirs(paths: seq<string>)

  /**
   * Database directories and a prefixes file exclude each other; directories
   * are used as given; otherwise the prefixes that exist are used, and there
   * must be at least one.
   */
  function ServerSourceFor(prefixesFile: string, dbdirs: seq<string>, prefixLines: seq<string>,
                           pathExists: string -> bool): (r: Result<ServerSource>)
  {
    if |prefixesFile| > 0 && |dbdirs| > 0 then Err("Cannot specify both dbdir and prefixes")
    else if |dbdirs| > 0 then Ok(DbDirs(dbdirs))
    else
      var kept := Existing(prefixLines, pathExists);
      if |kept| == 0 then Err("No valid prefixes") else Ok(PrefixDirs(kept))
  }

  /**
   * The server never uses both sources; it uses prefixes only when no
   * directory was given, and then exactly the existing ones, of which it
   * has at least one.
   */
  lemma ServerSourceRule(prefixesFile: string, dbdirs: seq<string>, prefixLines: seq<string>, pathExists: string -> bool)
    ensures |prefixesFile| > 0 && |dbdirs| > 0 ==> ServerSourceFor(prefixesFile, dbdirs, prefixLines, pathExists).Err?
    ensures var r := ServerSourceFor(prefixesFile, dbdirs, prefixLines, pathExists);
            r.Ok? && r.value.PrefixDirs? ==>
              |dbdirs| == 0 && |r.value.paths| > 0
              && forall x :: x in r.value.paths <==> x in prefixLines && pathExists(x)
    ensures |dbdirs| == 0 ==>
              (ServerSourceFor(prefixesFile, dbdirs, prefixLines, pathExists).Err? <==>
               forall x :: x in prefixLines ==> !pathExists(x))
  {
    ExistingMembers(prefixLines, pathExists);
    var kept := Existing(prefixLines, pathExists);
    if |dbdirs| == 0 && |kept| > 0 {
      assert kept[0] in kept;
    }
  }

  /** The server's choice of databases, reading the prefixes file when needed. */
  method ServerSetup(prefixesFile: string, dbdirs: seq<string>, prefixLines: seq<string>, pathExists: string -> bool)
    returns (r: Result<ServerSource>)
    ensures r == ServerSourceFor(prefixesFile, dbdirs, prefixLines, pathExists)
  {
    if |prefixesFile| > 0 && |dbdirs| > 0 {
      return Err("Cannot specify both dbdir and prefixes");
    } else if |dbdirs| > 0 {
      return Ok(DbDirs(dbdirs));
    }
    var kept := FilterExisting(prefixLines, pathExists);
    if |kept| == 0 {
      return Err("No valid prefixes");
    }
    return Ok(PrefixDirs(kept));
  }

  // ---------------------------------------------------------------------------
  // dbcreate: input slices and molecule ids

  /** 2^64: molecule ids are unsigned 64-bit values. */
  const Word: nat := 0x1_0000_0000_0000_0000

  /** The id of the uniqueid-th molecule of database d out of nd. */
  function MolId(uniqueid: nat, nd: nat, d: nat): (id: nat)
  {
    (uniqueid * nd + d) % Word
  }

  /** One input file to read, and the reader's stride and offset through its molecules. */
  datatype FileRead = FileRead(file: nat, stride: nat, offset: nat)

  /** The stride and offset of database d: whole files when partitioning by file, else every nd-th molecule from d. */
  function ReadFor(i: nat, d: nat, nd: nat, filePartition: bool): (fr: FileRead)
  {
    if filePartition then FileRead(i, 1, 0) else FileRead(i, nd, d)
  }

  /** The files database d reads among the first n, in order. */
  function SliceReads(d: nat, nd: nat, filePartition: bool, n: nat): (fileReads: seq<FileRead>)
    requires nd > 0
    ensures |fileReads| <= n
  {
    if n == 0 then []
    else
      SliceReads(d, nd, filePartition, n - 1)
      + (if !filePartition || (n - 1) % nd == d then [ReadFor(n - 1, d, nd, filePartition)] else [])
  }

  /** Some entry of fileReads reads file i. */
  predicate ReadsFile(fileReads: seq<FileRead>, i: nat)
  {
    exists j :: 0 <= j < |fileReads| && fileReads[j].file == i
  }

  /** Every entry has database d's stride and offset, and the files are increasing and below n. */
  predicate ReadsInOrder(fileReads: seq<FileRead>, d: nat, nd: nat, filePartition: bool, n: nat)
  {
    && (forall j :: 0 <= j < |fileReads| ==> fileReads[j] == ReadFor(fileReads[j].file, d, nd, filePartition))
    && (forall j, k :: 0 <= j < k < |fileReads| ==> fileReads[j].file < fileReads[k].file < n)
  }

  /** Database d reads file i exactly when i < n and files are not partitioned or i % nd == d. */
  lemma {:induction false} SliceReadsFiles(d: nat, nd: nat, filePartition: bool, n: nat)
    requires nd > 0
    ensures forall i: nat :: ReadsFile(SliceReads(d, nd, filePartition, n), i) <==>
                             i < n && (!filePartition || i % nd == d)
  {
    if n > 0 {
      SliceReadsFiles(d, nd, filePartition, n - 1);
      var prev := SliceReads(d, nd, filePartition, n - 1);
      var fileReads := SliceReads(d, nd, filePartition, n);
      assert fileReads[..|prev|] == prev;
      assert forall j :: 0 <= j < |prev| ==> fileReads[j] == prev[j];
      forall i: nat | ReadsFile(fileReads, i)
        ensures i < n && (!filePartition || i % nd == d)
      {
        var j :| 0 <= j < |fileReads| && fileReads[j].file == i;
        if j < |prev| {
          assert ReadsFile(prev, i);
        }
      }
      forall i: nat | i < n && (!filePartition || i % nd == d)
        ensures ReadsFile(fileReads, i)
      {
        if i < n - 1 {
          assert ReadsFile(prev, i);
          var j :| 0 <= j < |prev| && prev[j].file == i;
          assert fileReads[j].file == i;
        } else {
          assert fileReads[|fileReads| - 1].file == i;
        }
      }
    }
  }

  /** Database d's reads carry its stride and offset, and their files are increasing and below n. */
  lemma {:induction false} SliceReadsOrdered(d: nat, nd: nat, filePartition: bool, n: nat)
    requires nd > 0
    ensures ReadsInOrder(SliceReads(d, nd, filePartition, n), d, nd, filePartition, n)
  {
    if n > 0 {
      SliceReadsOrdered(d, nd, filePartition, n - 1);
      SliceReadsFiles(d, nd, filePartition, n - 1);
      var prev := SliceReads(d, nd, filePartition, n - 1);
      var fileReads := SliceReads(d, nd, filePartition, n);
      assert fileReads[..|prev|] == prev;
      assert forall j :: 0 <= j < |prev| ==> fileReads[j] == prev[j];
      forall j | 0 <= j < |prev|
        ensures prev[j].file < n - 1
      {
        assert ReadsFile(prev, prev[j].file);
      }
      forall j | 0 <= j < |fileReads|
        ensures fileReads[j] == ReadFor(fileReads[j].file, d, nd, filePartition)
        ensures fileReads[j].file < n
      {
        if j < |prev| {
          assert fileReads[j] == prev[j];
        } else {
          assert fileReads[j] == ReadFor(n - 1, d, nd, filePartition);
        }
      }
      forall j, k | 0 <= j < k < |fileReads|
        ensures fileReads[j].file < fileReads[k].file
      {
        if k < |prev| {
          assert fileReads[j] == prev[j] && fileReads[k] == prev[k];
        } else {
          assert fileReads[j] == prev[j];
          assert fileReads[k] == ReadFor(n - 1, d, nd, filePartition);
        }
      }
    }
  }

  /**
   * Database d reads file i exactly when files are not partitioned or
   * i % nd == d, with stride 1 and offset 0 under partitioning and stride
   * nd and offset d otherwise; files are read in increasing order.
   */
  lemma SliceReadsSpec(d: nat, nd: nat, filePartition: bool, n: nat)
    requires nd > 0
    ensures forall i: nat :: ReadsFile(SliceReads(d, nd, filePartition, n), i) <==>
                             i < n && (!filePartition || i % nd == d)
    ensures ReadsInOrder(SliceReads(d, nd, filePartition, n), d, nd, filePartition, n)
  {
    SliceReadsFiles(d, nd, filePartition, n);
    SliceReadsOrdered(d, nd, filePartition, n);
  }

  /** Under file partitioning, each input file is read by exactly one database, number i % nd. */
  lemma FilePartitionExactlyOnce(nd: nat, n: nat, i: nat)
    requires nd > 0 && i < n
    ensures ReadsFile(SliceReads(i % nd, nd, true, n), i)
    ensures forall d: nat :: d < nd && ReadsFile(SliceReads(d, nd, true, n), i) ==> d == i % nd
  {
    SliceReadsSpec(i % nd, nd, true, n);
    forall d: nat | d < nd && ReadsFile(SliceReads(d, nd, true, n), i)
      ensures d == i % nd
    {
      SliceReadsSpec(d, nd, true, n);
    }
  }

  /** Without partitioning, every database reads every file, database d with stride nd and offset d. */
  lemma {:induction false} NoPartitionReadsAll(d: nat, nd: nat, n: nat)
    requires d < nd
    ensures SliceReads(d, nd, false, n) == seq(n, i requires 0 <= i < n => FileRead(i, nd, d))
  {
    if n > 0 {
      NoPartitionReadsAll(d, nd, n - 1);
    }
  }

  /** How many molecules the readers of fileReads yield, molsRead giving the count per file, stride and offset. */
  function TotalRead(fileReads: seq<FileRead>, molsRead: (nat, nat, nat) -> nat): (total: nat)
  {
    if fileReads == [] then 0
    else
      var r := fileReads[|fileReads| - 1];
      TotalRead(fileReads[..|fileReads| - 1], molsRead) + molsRead(r.file, r.stride, r.offset)
  }

  /** The ids database d of nd gives its first count molecules: uniqueid counts from 1. */
  function SliceIds(d: nat, nd: nat, count: nat): (ids: seq<nat>)
    ensures |ids| == count
  {
    seq(count, k requires 0 <= k => MolId(k + 1, nd, d))
  }

  lemma SliceIdsStep(d: nat, nd: nat, count: nat)
    ensures SliceIds(d, nd, count + 1) == SliceIds(d, nd, count) + [MolId(count + 1, nd, d)]
  {
  }

  lemma MulLe(a: nat, b: nat, n: nat)
    requires a <= b
    ensures a * n <= b * n
  {
    assert b * n == a * n + (b - a) * n;
  }

  lemma MulSucc(a: nat, n: nat)
    ensures (a + 1) * n == a * n + n
  {
  }

  /** Striping is one-to-one: uniqueid * nd + d determines uniqueid and d when d < nd. */
  lemma StripeUnique(u1: nat, d1: nat, u2: nat, d2: nat, nd: nat)
    requires d1 < nd && d2 < nd
    requires u1 * nd + d1 == u2 * nd + d2
    ensures u1 == u2 && d1 == d2
  {
    if u1 < u2 {
      MulLe(u1 + 1, u2, nd);
      MulSucc(u1, nd);
    } else if u2 < u1 {
      MulLe(u2 + 1, u1, nd);
      MulSucc(u2, nd);
    }
  }

  /** An id below 2^64 is stored without wrapping. */
  lemma NoWrap(uniqueid: nat, nd: nat, d: nat)
    requires uniqueid * nd + d < Word
    ensures MolId(uniqueid, nd, d) == uniqueid * nd + d
  {
  }

  /**
   * Molecule ids are unique across all databases: two molecules, one from
   * database d1 and one from d2, get the same id only if they are the same
   * molecule of the same database, as long as no id reaches 2^64.
   */
  lemma IdsUnique(nd: nat, d1: nat, count1: nat, k1: nat, d2: nat, count2: nat, k2: nat)
    requires d1 < nd && d2 < nd && k1 < count1 && k2 < count2
    requires count1 * nd + d1 < Word && count2 * nd + d2 < Word
    requires SliceIds(d1, nd, count1)[k1] == SliceIds(d2, nd, count2)[k2]
    ensures d1 == d2 && k1 == k2
  {
    MulLe(k1 + 1, count1, nd);
    MulLe(k2 + 1, count2, nd);
    NoWrap(k1 + 1, nd, d1);
    NoWrap(k2 + 1, nd, d2);
    StripeUnique(k1 + 1, d1, k2 + 1, d2, nd);
  }

  /** The reader of one file for database d numbers its count molecules on from ids. */
  method NumberMolecules(d: nat, nd: nat, count: nat, ids: seq<nat>, uniqueid: nat)
    returns (ids': seq<nat>, uniqueid': nat)
    requires ids == SliceIds(d, nd, |ids|) && uniqueid == |ids| + 1
    ensures ids' == SliceIds(d, nd, |ids| + count) && uniqueid' == |ids'| + 1
  {
    ids', uniqueid' := ids, uniqueid;
    var k := 0;
    while k < count
      invariant 0 <= k <= count
      invariant ids' == SliceIds(d, nd, |ids| + k) && uniqueid' == |ids'| + 1
    {
      SliceIdsStep(d, nd, |ids'|);
      ids' := ids' + [MolId(uniqueid', nd, d)];
      uniqueid' := uniqueid' + 1;
      k := k + 1;
    }
  }

  /**
   * Database d of nd: reads its slice of the input files in order and gives
   * each molecule read the next id uniqueid * nd + d.
   */
  method CreateSlice(d: nat, nd: nat, filePartition: bool, nFiles: nat, molsRead: (nat, nat, nat) -> nat)
    returns (fileReads: seq<FileRead>, ids: seq<nat>)
    requires d < nd
    ensures fileReads == SliceReads(d, nd, filePartition, nFiles)
    ensures ids == SliceIds(d, nd, TotalRead(fileReads, molsRead))
  {
    fileReads, ids := [], [];
    var uniqueid := 1;
    for i := 0 to nFiles
      invariant fileReads == SliceReads(d, nd, filePartition, i)
      invariant ids == SliceIds(d, nd, TotalRead(fileReads, molsRead))
      invariant uniqueid == |ids| + 1
    {
      if !filePartition || i % nd == d {
        var stride, offset := nd, d;
        if filePartition {
          stride, offset := 1, 0;
        }
        ghost var before := fileReads;
        fileReads := fileReads + [FileRead(i, stride, offset)];
        assert fileReads[..|before|] == before;
        ids, uniqueid := NumberMolecules(d, nd, molsRead(i, stride, offset), ids, uniqueid);
      }
    }
  }

  /** dbcreate needs at least one database; database d then reads SliceReads(d, ...). */
  function CreatePlan(databases: seq<string>, filePartition: bool, nFiles: nat): (r: Result<seq<seq<FileRead>>>)
    ensures r.Err? <==> |databases| == 0
    ensures r.Ok? ==> |r.value| == |databases|
  {
    if |databases| == 0 then Err("Need to specify location of database directory to be created.")
    else Ok(seq(|databases|, d requires 0 <= d < |databases| => SliceReads(d, |databases|, filePartition, nFiles)))
  }

  // ---------------------------------------------------------------------------
  // dbcreateserverdir: ligand lines and directory slices

  /** One line of the ligand file: the conformer file, the molecule's id and its names. */
  datatype LigandLine = LigandLine(text: string, file: string, id: int, name: string)

  /** A ligand line needs a positive id; a missing conformer file only draws a warning. */
  function CheckLigand(l: LigandLine): (r: Result<LigandLine>)
  {
    if l.id <= 0 then Err("Error in ligand file on line:\n" + l.text) else Ok(l)
  }

  /** Reads the ligand lines, stopping at the first one with a bad id. */
  method ReadLigands(lines: seq<LigandLine>) returns (r: Result<seq<LigandLine>>)
    ensures r == Collect(seq(|lines|, i requires 0 <= i < |lines| => CheckLigand(lines[i])))
  {
    ghost var rs := seq(|lines|, i requires 0 <= i < |lines| => CheckLigand(lines[i]));
    var infos: seq<LigandLine> := [];
    for i := 0 to |lines|
      invariant Collect(rs[..i]) == Ok(infos)
    {
      var checked := CheckLigand(lines[i]);
      assert rs[i] == checked;
      CollectStep(rs, i, infos);
      if checked.Err? {
        CollectErrPrefix(rs, i + 1);
        return Err(checked.msg);
      }
      infos := infos + [lines[i]];
    }
    assert rs[..|lines|] == rs;
    return Ok(infos);
  }

  /**
   * The ligand file is accepted exactly when every id is positive, and then
   * unchanged; otherwise the error names the first line with a bad id.
   */
  lemma LigandRule(lines: seq<LigandLine>)
    ensures var r := Collect(seq(|lines|, i requires 0 <= i < |lines| => CheckLigand(lines[i])));
            && (r.Ok? <==> forall i :: 0 <= i < |lines| ==> lines[i].id > 0)
            && (r.Ok? ==> r.value == lines)
            && (r.Err? ==> exists i :: 0 <= i < |lines| && lines[i].id <= 0
                                     && r.msg == "Error in ligand file on line:\n" + lines[i].text
                                     && forall j :: 0 <= j < i ==> lines[j].id > 0)
  {
    var rs := seq(|lines|, i requires 0 <= i < |lines| => CheckLigand(lines[i]));
    CollectOk(rs);
    assert forall i :: 0 <= i < |lines| ==> rs[i] == CheckLigand(lines[i]);
    if Collect(rs).Err? {
      CollectErr(rs);
    }
  }

  /** The ligands directory d of nd receives: those with i % nd == d, in order. */
  function ServerSlice(d: nat, nd: nat, n: nat): (slice: seq<nat>)
    requires nd > 0
    ensures |slice| <= n
  {
    if n == 0 then []
    else ServerSlice(d, nd, n - 1) + (if (n - 1) % nd == d then [n - 1] else [])
  }

  /** Ligand i goes to directory d exactly when i % nd == d, and each directory's ligands are increasing. */
  lemma {:induction false} ServerSliceSpec(d: nat, nd: nat, n: nat)
    requires nd > 0
    ensures forall i: nat :: i in ServerSlice(d, nd, n) <==> i < n && i % nd == d
    ensures forall j, k :: 0 <= j < k < |ServerSlice(d, nd, n)| ==> ServerSlice(d, nd, n)[j] < ServerSlice(d, nd, n)[k]
  {
    if n > 0 {
      ServerSliceSpec(d, nd, n - 1);
      var prev := ServerSlice(d, nd, n - 1);
      var slice := ServerSlice(d, nd, n);
      assert slice[..|prev|] == prev;
      forall j | 0 <= j < |prev|
        ensures prev[j] < n - 1
      {
        assert prev[j] in prev;
      }
      forall i: nat | i in slice
        ensures i < n && i % nd == d
      {
        if i !in prev {
          assert slice != prev;
        }
      }
    }
  }

  /** Every ligand lands in exactly one directory, number i % nd. */
  lemma LigandInOneDirectory(nd: nat, n: nat, i: nat)
    requires nd > 0 && i < n
    ensures i in ServerSlice(i % nd, nd, n)
    ensures forall d :: 0 <= d < nd && i in ServerSlice(d, nd, n) ==> d == i % nd
  {
    ServerSliceSpec(i % nd, nd, n);
    forall d | 0 <= d < nd && i in ServerSlice(d, nd, n)
      ensures d == i % nd
    {
      ServerSliceSpec(d, nd, n);
    }
  }

  /**
   * The ligands whose molecules directory d of nd adds: those of its slice
   * whose conformer file has a format OpenBabel knows (molFormat), in order.
   */
  function Loaded(d: nat, nd: nat, ligands: seq<LigandLine>, molFormat: string -> bool, n: nat): (loaded: seq<nat>)
    requires nd > 0 && n <= |ligands|
    ensures |loaded| <= n
  {
    if n == 0 then []
    else Loaded(d, nd, ligands, molFormat, n - 1)
         + (if (n - 1) % nd == d && molFormat(ligands[n - 1].file) then [n - 1] else [])
  }

  /** Ligand i is loaded into directory d exactly when i % nd == d and its format is known; in increasing order. */
  lemma {:induction false} LoadedSpec(d: nat, nd: nat, ligands: seq<LigandLine>, molFormat: string -> bool, n: nat)
    requires nd > 0 && n <= |ligands|
    ensures forall i: nat :: i in Loaded(d, nd, ligands, molFormat, n) <==>
              i < n && i % nd == d && molFormat(ligands[i].file)
    ensures forall j, k :: 0 <= j < k < |Loaded(d, nd, ligands, molFormat, n)| ==>
              Loaded(d, nd, ligands, molFormat, n)[j] < Loaded(d, nd, ligands, molFormat, n)[k]
  {
    if n > 0 {
      LoadedSpec(d, nd, ligands, molFormat, n - 1);
      var prev := Loaded(d, nd, ligands, molFormat, n - 1);
      var loaded := Loaded(d, nd, ligands, molFormat, n);
      assert loaded[..|prev|] == prev;
      forall j | 0 <= j < |prev|
        ensures prev[j] < n - 1
      {
        assert prev[j] in prev;
      }
      forall i: nat | i in loaded
        ensures i < n && i % nd == d && molFormat(ligands[i].file)
      {
        if i !in prev {
          assert loaded != prev;
        }
      }
    }
  }

  /** The loaded ligands are the ligands of the directory's slice with a known format. */
  lemma LoadedInSlice(d: nat, nd: nat, ligands: seq<LigandLine>, molFormat: string -> bool)
    requires nd > 0
    ensures forall i: nat :: i in Loaded(d, nd, ligands, molFormat, |ligands|) <==>
              i in ServerSlice(d, nd, |ligands|) && i < |ligands| && molFormat(ligands[i].file)
  {
    LoadedSpec(d, nd, ligands, molFormat, |ligands|);
    ServerSliceSpec(d, nd, |ligands|);
  }

  /**
   * The loop of directory d's creator over the ligands: it adds the
   * molecules of the ligands of its slice whose format is known.
   */
  method FillDirectory(d: nat, nd: nat, ligands: seq<LigandLine>, molFormat: string -> bool) returns (added: seq<nat>)
    requires d < nd
    ensures added == Loaded(d, nd, ligands, molFormat, |ligands|)
  {
    added := [];
    for i := 0 to |ligands|
      invariant added == Loaded(d, nd, ligands, molFormat, i)
    {
      if i % nd == d {
        var info := ligands[i];
        if molFormat(info.file) {
          added := added + [i];
        }
      }
    }
  }
}
