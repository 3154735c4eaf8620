/**
 * How the job files and the two runners fit together: the runners recover
 * the job id that `generateFile` put into the file name, every Java job lands
 * on the one file `Main.java`, and the two runners settle the same callback
 * under different stderr policies.
 */
module Lifecycle {
  import opened NodePath
  import opened ExecOutcome
  import JsText
  import JobFiles
  import CodeRunner
  import JavaRunner

  /**
   * Outside Java, for a language without a separator and a job id with no dot
   * or separator, the job id `executeCode` reads back from the generated path
   * is the one it was generated with.
   */
  lemma JobIdRoundTrip(codesDir: string, language: string, jobId: string)
    requires language != "java"
    requires JobFiles.IsJobId(jobId) && Sep !in language
    ensures CodeRunner.JobIdOf(JobFiles.SourcePath(codesDir, language, jobId)) == jobId
  {
    var name := JobFiles.FileName(language, jobId);
    assert name == jobId + ['.'] + language;
    JobFiles.FileNameIsSegment(language, jobId);
    JsText.SplitOnHead(jobId, language, '.');
  }

  /** A generated Java file always yields the class name `Main`, the class `executeCode` runs. */
  lemma JavaJobsRunClassMain(codesDir: string, jobId: string)
    ensures JavaRunner.ClassName(JobFiles.SourcePath(codesDir, "java", jobId)) == "Main"
    ensures CodeRunner.JobIdOf(JobFiles.SourcePath(codesDir, "java", jobId)) == "Main"
  {
    var name := JobFiles.FileName("java", jobId);
    assert name == "Main" + ['.'] + "java";
    assert IsFileName(name);
    JsText.SplitOnHead("Main", "java", '.');
  }

  /** C and C++ jobs with distinct ids compile to distinct binaries in the outputs directory. */
  lemma DistinctJobsGetDistinctBinaries(codesDir: string, language: string, jobId1: string, jobId2: string, isWindows: bool)
    requires language == "cpp" || language == "c"
    requires JobFiles.IsJobId(jobId1) && JobFiles.IsJobId(jobId2)
    requires jobId1 != jobId2
    ensures CodeRunner.BinaryName(CodeRunner.JobIdOf(JobFiles.SourcePath(codesDir, language, jobId1)), isWindows)
         != CodeRunner.BinaryName(CodeRunner.JobIdOf(JobFiles.SourcePath(codesDir, language, jobId2)), isWindows)
  {
    JobIdRoundTrip(codesDir, language, jobId1);
    JobIdRoundTrip(codesDir, language, jobId2);
    var suffix := if isWindows then ".exe" else "";
    assert (jobId1 + suffix)[..|jobId1|] == jobId1;
    assert (jobId2 + suffix)[..|jobId2|] == jobId2;
  }

  /**
   * The two runners agree whenever `executeJava` resolves; they differ exactly
   * when there is no error but stderr is not empty, which `executeCode`
   * resolves and `executeJava` rejects.
   */
  lemma JavaRunnerIsStricter(reply: ExecReply)
    ensures JavaRunner.SettleReply(reply).Resolved? ==> CodeRunner.SettleReply(reply) == JavaRunner.SettleReply(reply)
    ensures CodeRunner.SettleReply(reply).Rejected? ==> JavaRunner.SettleReply(reply).Rejected?
    ensures CodeRunner.SettleReply(reply).Resolved? && JavaRunner.SettleReply(reply).Rejected?
        <==> reply.error.None? && reply.stderr != ""
  {
  }

  /**
   * Two Java jobs in a row: both are given the same path, and the second
   * job's source replaces the first's.
   */
  method TwoJavaJobs(store: JobFiles.FileStore, code1: string, code2: string, jobId1: string, jobId2: string)
    returns (path1: string, path2: string)
    modifies store
    ensures path1 == path2
    ensures path2 in store.files && store.files[path2] == code2
  {
    path1 := store.GenerateFile("java", code1, jobId1);
    path2 := store.GenerateFile("java", code2, jobId2);
    JobFiles.JavaJobsShareOnePath(store.codesDir, jobId1, jobId2);
  }

  /**
   * Writing comes before any language check: the source of a job in a
   * language `executeCode` refuses is still written, and the run hands nothing
   * to `exec`.
   */
  method WriteThenExecute(store: JobFiles.FileStore, language: string, code: string, jobId: string,
                          inputFilePath: string, isWindows: bool, outputPath: string, run: string -> ExecReply)
    returns (filepath: string, r: Execution)
    modifies store
    ensures filepath in store.files && store.files[filepath] == code
    ensures !CodeRunner.IsSupported(language) ==>
      r.commands == [] && r.settlement == Rejected(ErrorMessage("Unsupported language"))
  {
    filepath := store.GenerateFile(language, code, jobId);
    r := CodeRunner.ExecuteCode(filepath, inputFilePath, language, isWindows, outputPath, run);
  }
}
