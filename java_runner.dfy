/**
 * `executeJava`: runs a Java source file by compiling it and running the
 * class named after the file, with the file's directory as the classpath.
 * Its paths are written into the command line without quotes, and its
 * callback rejects on any stderr output, not only on an error.
 */
module JavaRunner {
  import opened Wrappers
  import opened NodePath
  import opened ShellCommand
  import opened ExecOutcome
  import CodeRunner

  /** The class name: the job id, the base name of the path up to its first `.`. */
  function ClassName(filePath: string): (name: string)
    ensures '.' !in name
    ensures name <= Basename(filePath)
    ensures |name| < |Basename(filePath)| ==> Basename(filePath)[|name|] == '.'
  {
    CodeRunner.JobIdOf(filePath)
  }

  /** The classpath: the directory of the source file. */
  function Classpath(filePath: string): (dir: string)
    ensures dir != []
    ensures dir == "." || dir <= filePath
  {
    Dirname(filePath)
  }

  /** The command line as the template string writes it. */
  function CommandLine(filePath: string, dirPath: string, className: string, inputFilePath: string): string {
    "javac " + filePath + " && java -cp " + dirPath + " " + className + " < " + inputFilePath
  }

  /** The same command as a structure, every word bare. */
  function PlanWith(filePath: string, dirPath: string, className: string, inputFilePath: string): Command {
    Then(Simple(Invoke(Bare("javac"), [Bare(filePath)], None)), AndIf,
         Invoke(Bare("java"), [Bare("-cp"), Bare(dirPath), Bare(className)], Some(Bare(inputFilePath))))
  }

  function CommandText(filePath: string, inputFilePath: string): (line: string)
    ensures line == Render(Plan(filePath, inputFilePath))
  {
    PlanWithRenders(filePath, Classpath(filePath), ClassName(filePath), inputFilePath);
    CommandLine(filePath, Classpath(filePath), ClassName(filePath), inputFilePath)
  }

  function Plan(filePath: string, inputFilePath: string): Command {
    PlanWith(filePath, Classpath(filePath), ClassName(filePath), inputFilePath)
  }

  lemma JavaStepRenders(dirPath: string, className: string, inputFilePath: string)
    ensures StepText(Invoke(Bare("java"), [Bare("-cp"), Bare(dirPath), Bare(className)], Some(Bare(inputFilePath))))
      == "java -cp " + dirPath + " " + className + " < " + inputFilePath
  {
    CodeRunner.ArgsTextThree(Bare("-cp"), Bare(dirPath), Bare(className));
    assert "java" + " " + "-cp" == "java -cp";
  }

  lemma PlanWithRenders(filePath: string, dirPath: string, className: string, inputFilePath: string)
    ensures Render(PlanWith(filePath, dirPath, className, inputFilePath)) == CommandLine(filePath, dirPath, className, inputFilePath)
  {
    var javac := "javac " + filePath;
    var java := "java -cp " + dirPath + " " + className + " < " + inputFilePath;
    var plan := PlanWith(filePath, dirPath, className, inputFilePath);
    assert Render(plan.first) == javac by {
      CodeRunner.ArgsTextOne(Bare(filePath));
    }
    assert StepText(plan.next) == java by {
      JavaStepRenders(dirPath, className, inputFilePath);
    }
    assert Render(plan) == javac + " && " + java;
    CommandLineJoins(filePath, dirPath, className, inputFilePath);
  }

  /** The template's text is the compile command and the run command joined by `&&`. */
  lemma CommandLineJoins(filePath: string, dirPath: string, className: string, inputFilePath: string)
    ensures CommandLine(filePath, dirPath, className, inputFilePath)
      == ("javac " + filePath) + " && " + ("java -cp " + dirPath + " " + className + " < " + inputFilePath)
  {
    var javac := "javac " + filePath;
    var rest := dirPath + " " + className + " < " + inputFilePath;
    assert "java -cp " + dirPath + " " + className + " < " + inputFilePath == "java -cp " + rest;
    assert " && " + "java -cp " == " && java -cp ";
    assert javac + " && " + ("java -cp " + rest) == javac + " && java -cp " + rest;
  }

  lemma PlanWithRuns(filePath: string, dirPath: string, className: string, inputFilePath: string, succeeds: nat -> bool)
    ensures var plan := PlanWith(filePath, dirPath, className, inputFilePath);
      && Steps(plan) == [plan.first.step, plan.next]
      && Run(plan, succeeds) == if succeeds(0) then ([0, 1], succeeds(1)) else ([0], false)
  {
    var plan := PlanWith(filePath, dirPath, className, inputFilePath);
    assert Steps(plan.first) == [plan.first.step];
    assert Run(plan.first, succeeds) == ([0], succeeds(0));
    assert [0] + [1] == [0, 1];
  }

  /** The callback: an error rejects with it and stderr; otherwise any stderr output rejects; otherwise stdout resolves. */
  function SettleReply(reply: ExecReply): (r: Settlement)
    ensures r.Resolved? <==> reply.error.None? && reply.stderr == ""
    ensures r.Resolved? ==> r.value == reply.stdout
    ensures reply.error.Some? ==> r == Rejected(ErrorAndStderr(reply.error.value, reply.stderr))
    ensures reply.error.None? && reply.stderr != "" ==> r == Rejected(StderrOnly(reply.stderr))
  {
    if reply.error.Some? then Rejected(ErrorAndStderr(reply.error.value, reply.stderr))
    else if reply.stderr != "" then Rejected(StderrOnly(reply.stderr))
    else Resolved(reply.stdout)
  }

  /**
   * One call of `executeJava`: exactly one command line is handed to `exec`,
   * the rendering of the plan, and the promise resolves exactly when there
   * was neither an error nor stderr output, with stdout.
   */
  function ExecuteJava(filePath: string, inputFilePath: string, run: string -> ExecReply): (r: Execution)
    ensures r.commands == [Render(Plan(filePath, inputFilePath))]
    ensures r.settlement.Resolved? <==> run(r.commands[0]).error.None? && run(r.commands[0]).stderr == ""
    ensures r.settlement.Resolved? ==> r.settlement.value == run(r.commands[0]).stdout
    ensures run(r.commands[0]).error.Some? ==>
      r.settlement == Rejected(ErrorAndStderr(run(r.commands[0]).error.value, run(r.commands[0]).stderr))
    ensures run(r.commands[0]).error.None? && run(r.commands[0]).stderr != "" ==>
      r.settlement == Rejected(StderrOnly(run(r.commands[0]).stderr))
  {
    PlanWithRenders(filePath, Classpath(filePath), ClassName(filePath), inputFilePath);
    var command := CommandText(filePath, inputFilePath);
    Execution([command], SettleReply(run(command)))
  }

  /**
   * The class name is the base name up to its first `.`; the classpath is the
   * directory part; `javac` runs first and `java` only after it succeeded.
   */
  lemma CompileThenRunClass(filePath: string, inputFilePath: string, succeeds: nat -> bool)
    ensures '.' !in ClassName(filePath) && ClassName(filePath) <= Basename(filePath)
    ensures |ClassName(filePath)| < |Basename(filePath)| ==> Basename(filePath)[|ClassName(filePath)|] == '.'
    ensures var plan := Plan(filePath, inputFilePath);
      var (ran, ok) := Run(plan, succeeds);
      && Steps(plan) == [Invoke(Bare("javac"), [Bare(filePath)], None),
                         Invoke(Bare("java"), [Bare("-cp"), Bare(Dirname(filePath)), Bare(ClassName(filePath))], Some(Bare(inputFilePath)))]
      && ran == (if succeeds(0) then [0, 1] else [0])
      && (ok <==> succeeds(0) && succeeds(1))
  {
    PlanWithRuns(filePath, Classpath(filePath), ClassName(filePath), inputFilePath, succeeds);
  }
}
