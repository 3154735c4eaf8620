/**
 * `executeCode`: recovers the job id from the source path, builds one shell
 * command per supported language (C, C++, Java, Python), refuses any other
 * language before anything runs, and settles its promise from the `exec`
 * callback. `isWindows` and the outputs directory are parameters; `exec` is
 * the function `run` from a command line to the callback's arguments.
 */
module CodeRunner {
  import opened Wrappers
  import opened JsText
  import opened NodePath
  import opened ShellCommand
  import opened ExecOutcome

  /** The job id: the base name of the path up to its first `.`. */
  function JobIdOf(filePath: string): (id: string)
    ensures '.' !in id
    ensures id <= Basename(filePath)
    ensures |id| < |Basename(filePath)| ==> Basename(filePath)[|id|] == '.'
  {
    SplitOn(Basename(filePath), '.')[0]
  }

  predicate IsSupported(language: string) {
    language == "cpp" || language == "c" || language == "java" || language == "py"
  }

  /** A path in double quotes, as every path of this runner is written. */
  function Quote(path: string): string {
    "\"" + path + "\""
  }

  /** The compiled binary's file name: the job id, with `.exe` on Windows. */
  function BinaryName(jobId: string, isWindows: bool): string {
    jobId + (if isWindows then ".exe" else "")
  }

  function CompilerFor(language: string): string {
    if language == "cpp" then "g++" else "gcc"
  }

  // The command lines as the runner's template strings write them.

  function CompileAndRunText(filePath: string, inputFilePath: string, compiler: string, outputFile: string,
                             outPath: string, isWindows: bool, outputPath: string): string {
    var runCmd := if isWindows then ".\\\"" + outputFile + "\" < " + Quote(inputFilePath)
                  else "./" + outputFile + " < " + Quote(inputFilePath);
    compiler + " " + Quote(filePath) + " -o " + Quote(outPath) + " && cd \"" + outputPath + "\" && " + runCmd
  }

  function JavaText(dir: string, filePath: string, inputFilePath: string): string {
    var className := "Main";
    "cd " + Quote(dir) + " && javac " + Quote(filePath) + " && java " + className + " < " + Quote(inputFilePath)
  }

  function PythonText(filePath: string, inputFilePath: string): string {
    var quotedFilePath := Quote(filePath);
    var quotedInputPath := Quote(inputFilePath);
    "python3 " + quotedFilePath + " < " + quotedInputPath + " || python " + quotedFilePath + " < " + quotedInputPath
  }

  /** The command line for a language; `None` for an unsupported one. */
  function CommandText(filePath: string, inputFilePath: string, language: string, isWindows: bool, outputPath: string): (r: Option<string>)
    ensures r.Some? <==> IsSupported(language)
  {
    if language == "cpp" || language == "c" then
      var outputFile := BinaryName(JobIdOf(filePath), isWindows);
      Some(CompileAndRunText(filePath, inputFilePath, CompilerFor(language), outputFile, Join(outputPath, outputFile), isWindows, outputPath))
    else if language == "java" then Some(JavaText(Dirname(filePath), filePath, inputFilePath))
    else if language == "py" then Some(PythonText(filePath, inputFilePath))
    else None
  }

  // The same command lines as structures: which commands, in which order, joined how.

  /** C and C++: compile into the outputs directory, `cd` there, run the binary on the input file. */
  function CompileAndRunPlan(filePath: string, inputFilePath: string, compiler: string, outputFile: string,
                             outPath: string, isWindows: bool, outputPath: string): Command {
    var compile := Invoke(Bare(compiler), [Quoted(filePath), Bare("-o"), Quoted(outPath)], None);
    var binary := if isWindows then Glued(Bare(".\\"), Quoted(outputFile)) else Bare("./" + outputFile);
    Then(Then(Simple(compile), AndIf, ChangeDir(Quoted(outputPath))), AndIf, Invoke(binary, [], Some(Quoted(inputFilePath))))
  }

  /** Java: `cd` to the source directory, compile the file, run the class `Main` on the input file. */
  function JavaPlan(dir: string, filePath: string, inputFilePath: string): Command {
    Then(Then(Simple(ChangeDir(Quoted(dir))), AndIf, Invoke(Bare("javac"), [Quoted(filePath)], None)),
         AndIf, Invoke(Bare("java"), [Bare("Main")], Some(Quoted(inputFilePath))))
  }

  /** Python: `python3` on the file, and `python` only if that failed. */
  function PythonPlan(filePath: string, inputFilePath: string): Command {
    var input := Some(Quoted(inputFilePath));
    Then(Simple(Invoke(Bare("python3"), [Quoted(filePath)], input)), OrIf, Invoke(Bare("python"), [Quoted(filePath)], input))
  }

  function Plan(filePath: string, inputFilePath: string, language: string, isWindows: bool, outputPath: string): (r: Option<Command>)
    ensures r.Some? <==> IsSupported(language)
    ensures r.Some? ==> r.value.Then? && r.value.next.Invoke? && r.value.next.stdin == Some(Quoted(inputFilePath))
  {
    if language == "cpp" || language == "c" then
      var outputFile := BinaryName(JobIdOf(filePath), isWindows);
      Some(CompileAndRunPlan(filePath, inputFilePath, CompilerFor(language), outputFile, Join(outputPath, outputFile), isWindows, outputPath))
    else if language == "java" then Some(JavaPlan(Dirname(filePath), filePath, inputFilePath))
    else if language == "py" then Some(PythonPlan(filePath, inputFilePath))
    else None
  }

  lemma ArgsTextOne(a: Word)
    ensures ArgsText([a]) == " " + WordText(a)
  {
    assert [a][1..] == [];
  }

  lemma ArgsTextThree(a: Word, b: Word, c: Word)
    ensures ArgsText([a, b, c]) == " " + WordText(a) + " " + WordText(b) + " " + WordText(c)
  {
    assert [a, b, c][1..] == [b, c];
    assert [b, c][1..] == [c];
    ArgsTextOne(c);
  }

  /** The binary is run as the template writes it: `.\"<file>"` on Windows, `./<file>` elsewhere. */
  lemma BinaryStepRenders(outputFile: string, inputFilePath: string, isWindows: bool)
    ensures var binary := if isWindows then Glued(Bare(".\\"), Quoted(outputFile)) else Bare("./" + outputFile);
      StepText(Invoke(binary, [], Some(Quoted(inputFilePath))))
        == if isWindows then ".\\\"" + outputFile + "\" < " + Quote(inputFilePath)
           else "./" + outputFile + " < " + Quote(inputFilePath)
  {
    assert ArgsText([]) == "";
    if isWindows {
      var binary := Glued(Bare(".\\"), Quoted(outputFile));
      assert WordText(binary) == ".\\" + ("\"" + outputFile + "\"");
      assert StepText(Invoke(binary, [], Some(Quoted(inputFilePath)))) == WordText(binary) + " < " + Quote(inputFilePath);
      assert ".\\\"" == ".\\" + "\"";
      assert "\" < " == "\"" + " < ";
    }
  }

  /** The compile step: the compiler, the quoted source, `-o` and the quoted binary path. */
  lemma CompileStepRenders(compiler: string, filePath: string, outPath: string)
    ensures StepText(Invoke(Bare(compiler), [Quoted(filePath), Bare("-o"), Quoted(outPath)], None))
      == compiler + " " + Quote(filePath) + " -o " + Quote(outPath)
  {
    ArgsTextThree(Quoted(filePath), Bare("-o"), Quoted(outPath));
  }

  /** A `cd` into a quoted directory between two commands of an `&&` list. */
  lemma ChangeDirBetween(x: string, dir: string, y: string)
    ensures x + " && " + StepText(ChangeDir(Quoted(dir))) + " && " + y == x + " && cd \"" + dir + "\" && " + y
  {
    assert StepText(ChangeDir(Quoted(dir))) == "cd " + "\"" + dir + "\"";
  }

  lemma CompileAndRunRenders(filePath: string, inputFilePath: string, compiler: string, outputFile: string,
                             outPath: string, isWindows: bool, outputPath: string)
    ensures Render(CompileAndRunPlan(filePath, inputFilePath, compiler, outputFile, outPath, isWindows, outputPath))
      == CompileAndRunText(filePath, inputFilePath, compiler, outputFile, outPath, isWindows, outputPath)
  {
    var plan := CompileAndRunPlan(filePath, inputFilePath, compiler, outputFile, outPath, isWindows, outputPath);
    CompileStepRenders(compiler, filePath, outPath);
    BinaryStepRenders(outputFile, inputFilePath, isWindows);
    ChangeDirBetween(StepText(plan.first.first.step), outputPath, StepText(plan.next));
    assert Render(plan.first) == StepText(plan.first.first.step) + " && " + StepText(plan.first.next);
  }

  /** Compiling one quoted source file with `javac`. */
  lemma JavacStepRenders(filePath: string)
    ensures StepText(Invoke(Bare("javac"), [Quoted(filePath)], None)) == "javac " + Quote(filePath)
  {
    ArgsTextOne(Quoted(filePath));
  }

  /** Running the class `Main` on the quoted input file. */
  lemma JavaStepRenders(inputFilePath: string)
    ensures StepText(Invoke(Bare("java"), [Bare("Main")], Some(Quoted(inputFilePath)))) == "java Main < " + Quote(inputFilePath)
  {
    ArgsTextOne(Bare("Main"));
  }

  lemma JavaRenders(dir: string, filePath: string, inputFilePath: string)
    ensures Render(JavaPlan(dir, filePath, inputFilePath)) == JavaText(dir, filePath, inputFilePath)
  {
    var plan := JavaPlan(dir, filePath, inputFilePath);
    JavacStepRenders(filePath);
    JavaStepRenders(inputFilePath);
    assert StepText(plan.first.first.step) == "cd " + Quote(dir);
    assert Render(plan.first) == StepText(plan.first.first.step) + " && " + StepText(plan.first.next);
    JavaTextJoins(dir, filePath, inputFilePath);
  }

  /** The template's text is the three commands joined by `&&`. */
  lemma JavaTextJoins(dir: string, filePath: string, inputFilePath: string)
    ensures JavaText(dir, filePath, inputFilePath)
      == ("cd " + Quote(dir)) + " && " + ("javac " + Quote(filePath)) + " && " + ("java Main < " + Quote(inputFilePath))
  {
    var c, source, input := "cd " + Quote(dir), Quote(filePath), Quote(inputFilePath);
    assert c + " && " + ("javac " + source) == c + " && javac " + source;
    assert "java Main < " + input == "java " + "Main" + " < " + input;
  }

  /** A program run on one quoted file with the quoted input file on stdin. */
  lemma RedirectedStepRenders(program: string, filePath: string, inputFilePath: string)
    ensures StepText(Invoke(Bare(program), [Quoted(filePath)], Some(Quoted(inputFilePath))))
      == program + " " + Quote(filePath) + " < " + Quote(inputFilePath)
  {
    ArgsTextOne(Quoted(filePath));
  }

  lemma PythonRenders(filePath: string, inputFilePath: string)
    ensures Render(PythonPlan(filePath, inputFilePath)) == PythonText(filePath, inputFilePath)
  {
    var plan := PythonPlan(filePath, inputFilePath);
    var source, input := Quote(filePath), Quote(inputFilePath);
    var first := "python3 " + source + " < " + input;
    var second := "python " + source + " < " + input;
    assert Render(plan.first) == first by {
      RedirectedStepRenders("python3", filePath, inputFilePath);
      assert "python3" + " " == "python3 ";
    }
    assert StepText(plan.next) == second by {
      RedirectedStepRenders("python", filePath, inputFilePath);
      assert "python" + " " == "python ";
    }
    assert Render(plan) == first + " || " + second;
    PythonTextJoins(filePath, inputFilePath);
  }

  /** The template's text is the two attempts joined by `||`. */
  lemma PythonTextJoins(filePath: string, inputFilePath: string)
    ensures PythonText(filePath, inputFilePath)
      == ("python3 " + Quote(filePath) + " < " + Quote(inputFilePath)) + " || " + ("python " + Quote(filePath) + " < " + Quote(inputFilePath))
  {
    var source, input := Quote(filePath), Quote(inputFilePath);
    var first := "python3 " + source + " < " + input;
    var rest := source + " < " + input;
    assert "python " + source + " < " + input == "python " + rest;
    assert " || " + "python " == " || python ";
    assert first + " || " + ("python " + rest) == first + " || python " + rest;
  }

  /** The structure renders to exactly the text the runner hands to `exec`. */
  lemma PlanRendersAsCommandText(filePath: string, inputFilePath: string, language: string, isWindows: bool, outputPath: string)
    ensures IsSupported(language) ==>
      Render(Plan(filePath, inputFilePath, language, isWindows, outputPath).value)
        == CommandText(filePath, inputFilePath, language, isWindows, outputPath).value
  {
    if language == "cpp" || language == "c" {
      var outputFile := BinaryName(JobIdOf(filePath), isWindows);
      CompileAndRunRenders(filePath, inputFilePath, CompilerFor(language), outputFile, Join(outputPath, outputFile), isWindows, outputPath);
    } else if language == "java" {
      JavaRenders(Dirname(filePath), filePath, inputFilePath);
    } else if language == "py" {
      PythonRenders(filePath, inputFilePath);
    }
  }

  /** How the runner settles after `exec`: an error rejects with its message; otherwise stdout resolves, whatever stderr holds. */
  function SettleReply(reply: ExecReply): (r: Settlement)
    ensures r.Resolved? <==> reply.error.None?
    ensures r.Resolved? ==> r.value == reply.stdout
    ensures r.Rejected? ==> r.reason == ErrorMessage(reply.error.value.message)
  {
    if reply.error.Some? then Rejected(ErrorMessage(reply.error.value.message)) else Resolved(reply.stdout)
  }

  /**
   * One call of `executeCode`. An unsupported language rejects with
   * "Unsupported language" and hands nothing to `exec`; a supported one hands
   * `exec` its one command line, the rendering of its plan, and settles from
   * the reply: rejected with the error's message, or resolved with stdout.
   */
  function ExecuteCode(filePath: string, inputFilePath: string, language: string, isWindows: bool,
                       outputPath: string, run: string -> ExecReply): (r: Execution)
    ensures r.commands == [] <==> !IsSupported(language)
    ensures !IsSupported(language) ==> r.settlement == Rejected(ErrorMessage("Unsupported language"))
    ensures IsSupported(language) ==>
      && r.commands == [Render(Plan(filePath, inputFilePath, language, isWindows, outputPath).value)]
      && (run(r.commands[0]).error.Some? ==> r.settlement == Rejected(ErrorMessage(run(r.commands[0]).error.value.message)))
      && (run(r.commands[0]).error.None? ==> r.settlement == Resolved(run(r.commands[0]).stdout))
  {
    PlanRendersAsCommandText(filePath, inputFilePath, language, isWindows, outputPath);
    match CommandText(filePath, inputFilePath, language, isWindows, outputPath)
    case None => Execution([], Rejected(ErrorMessage("Unsupported language")))
    case Some(command) => Execution([command], SettleReply(run(command)))
  }

  /** The three commands of a C or C++ plan: compile, `cd` to the outputs directory, run the binary on the input file. */
  lemma CompileAndRunSteps(filePath: string, inputFilePath: string, compiler: string, outputFile: string,
                           outPath: string, isWindows: bool, outputPath: string)
    ensures var plan := CompileAndRunPlan(filePath, inputFilePath, compiler, outputFile, outPath, isWindows, outputPath);
      var compile := Invoke(Bare(compiler), [Quoted(filePath), Bare("-o"), Quoted(outPath)], None);
      && plan == Then(Then(Simple(compile), AndIf, ChangeDir(Quoted(outputPath))), AndIf, plan.next)
      && Steps(plan) == [compile, ChangeDir(Quoted(outputPath)), plan.next]
      && plan.next == Invoke(if isWindows then Glued(Bare(".\\"), Quoted(outputFile)) else Bare("./" + outputFile),
                             [], Some(Quoted(inputFilePath)))
  {
    var plan := CompileAndRunPlan(filePath, inputFilePath, compiler, outputFile, outPath, isWindows, outputPath);
    StepsOfThree(plan.first.first.step, AndIf, plan.first.next, AndIf, plan.next);
  }

  /**
   * The compiler is `g++` exactly for C++ and `gcc` exactly for C; it writes
   * the binary named after the job id into the outputs directory, which the
   * `cd` enters before the binary runs on the input file.
   */
  lemma CompilerAndBinary(filePath: string, inputFilePath: string, language: string, isWindows: bool, outputPath: string)
    requires language == "cpp" || language == "c"
    ensures var steps := Steps(Plan(filePath, inputFilePath, language, isWindows, outputPath).value);
      && |steps| == 3
      && steps[0].Invoke?
      && (steps[0].program == Bare("g++") <==> language == "cpp")
      && (steps[0].program == Bare("gcc") <==> language == "c")
      && steps[0].args == [Quoted(filePath), Bare("-o"), Quoted(Join(outputPath, JobIdOf(filePath) + (if isWindows then ".exe" else "")))]
      && steps[1] == ChangeDir(Quoted(outputPath))
      && steps[2].Invoke? && steps[2].stdin == Some(Quoted(inputFilePath))
  {
    var outputFile := BinaryName(JobIdOf(filePath), isWindows);
    CompileAndRunSteps(filePath, inputFilePath, CompilerFor(language), outputFile, Join(outputPath, outputFile), isWindows, outputPath);
  }

  lemma CompileAndRunRuns(plan: Command, succeeds: nat -> bool)
    requires plan.Then? && plan.op == AndIf && plan.first.Then? && plan.first.op == AndIf && plan.first.first.Simple?
    ensures var (ran, ok) := Run(plan, succeeds);
      && (ran == [0, 1, 2] <==> succeeds(0) && succeeds(1))
      && (ran == [0] <==> !succeeds(0))
      && (ok <==> succeeds(0) && succeeds(1) && succeeds(2))
  {
    RunAndList(plan.first.first.step, plan.first.next, plan.next, succeeds);
  }

  /** C and C++: the compiler runs first, and the binary runs exactly when both the compiler and the `cd` succeeded. */
  lemma CompiledRunFollowsCompile(filePath: string, inputFilePath: string, language: string, isWindows: bool, outputPath: string, succeeds: nat -> bool)
    requires language == "cpp" || language == "c"
    ensures var plan := Plan(filePath, inputFilePath, language, isWindows, outputPath).value;
      var (ran, ok) := Run(plan, succeeds);
      && (ran == [0, 1, 2] <==> succeeds(0) && succeeds(1))
      && (ran == [0] <==> !succeeds(0))
      && (ok <==> succeeds(0) && succeeds(1) && succeeds(2))
  {
    var outputFile := BinaryName(JobIdOf(filePath), isWindows);
    var plan := CompileAndRunPlan(filePath, inputFilePath, CompilerFor(language), outputFile, Join(outputPath, outputFile), isWindows, outputPath);
    assert Plan(filePath, inputFilePath, language, isWindows, outputPath) == Some(plan);
    CompileAndRunRuns(plan, succeeds);
  }

  /** Java: `cd` to the source directory, compile, then run the fixed class `Main`, each only after the previous succeeded. */
  lemma JavaRunFollowsCompile(filePath: string, inputFilePath: string, isWindows: bool, outputPath: string, succeeds: nat -> bool)
    ensures var plan := Plan(filePath, inputFilePath, "java", isWindows, outputPath).value;
      var (ran, ok) := Run(plan, succeeds);
      && Steps(plan) == [ChangeDir(Quoted(Dirname(filePath))),
                         Invoke(Bare("javac"), [Quoted(filePath)], None),
                         Invoke(Bare("java"), [Bare("Main")], Some(Quoted(inputFilePath)))]
      && (2 in ran <==> succeeds(0) && succeeds(1))
      && (ok <==> succeeds(0) && succeeds(1) && succeeds(2))
  {
    var plan := JavaPlan(Dirname(filePath), filePath, inputFilePath);
    StepsOfThree(plan.first.first.step, AndIf, plan.first.next, AndIf, plan.next);
    RunAndList(plan.first.first.step, plan.first.next, plan.next, succeeds);
  }

  /** Python: no compile step; `python` runs only when `python3` failed, and the list succeeds when either did. */
  lemma PythonFallsBack(filePath: string, inputFilePath: string, isWindows: bool, outputPath: string, succeeds: nat -> bool)
    ensures var plan := Plan(filePath, inputFilePath, "py", isWindows, outputPath).value;
      var (ran, ok) := Run(plan, succeeds);
      && Steps(plan) == [Invoke(Bare("python3"), [Quoted(filePath)], Some(Quoted(inputFilePath))),
                         Invoke(Bare("python"), [Quoted(filePath)], Some(Quoted(inputFilePath)))]
      && ran == (if succeeds(0) then [0] else [0, 1])
      && (ok <==> succeeds(0) || succeeds(1))
  {
    var plan := PythonPlan(filePath, inputFilePath);
    assert Steps(plan.first) == [plan.first.step];
    RunOrList(plan.first.step, plan.next, succeeds);
  }

  /** Every command that reads stdin reads the quoted input path, and the source path is passed quoted. */
  lemma PathsAreQuoted(filePath: string, inputFilePath: string, language: string, isWindows: bool, outputPath: string)
    requires IsSupported(language)
    ensures var steps := Steps(Plan(filePath, inputFilePath, language, isWindows, outputPath).value);
      && (forall k :: 0 <= k < |steps| && steps[k].Invoke? && steps[k].stdin.Some? ==>
            steps[k].stdin == Some(Quoted(inputFilePath)))
      && (exists k :: 0 <= k < |steps| && steps[k].Invoke? && Quoted(filePath) in steps[k].args)
  {
    var plan := Plan(filePath, inputFilePath, language, isWindows, outputPath).value;
    var steps := Steps(plan);
    if language == "py" {
      assert steps == [plan.first.step, plan.next];
      assert steps[0].args[0] == Quoted(filePath);
    } else {
      StepsOfThree(plan.first.first.step, AndIf, plan.first.next, AndIf, plan.next);
      if language == "java" {
        assert steps[1].args[0] == Quoted(filePath);
      } else {
        assert steps[0].args[0] == Quoted(filePath);
      }
    }
  }
}
