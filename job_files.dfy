/**
 * `generateFile`: the extension and file name chosen for a job's source, the
 * path it is written to inside the codes directory, and the write itself.
 */
module JobFiles {
  import opened NodePath

  /** The extension for a language: every branch of the choice yields the language itself. */
  function Extension(language: string): (ext: string)
    ensures ext == language
  {
    if language == "py" then "py" else if language == "java" then "java" else language
  }

  /** The file name: a Java job's file is named after the class `Main`, any other after its job id. */
  function FileName(language: string, jobId: string): (name: string)
    ensures |name| > |language| && name[|name| - |language| - 1] == '.' && name[|name| - |language|..] == language
  {
    (if language == "java" then "Main" else jobId) + "." + Extension(language)
  }

  /** What a job id drawn by the server looks like: a UUID, not empty, with neither a dot nor a separator. */
  predicate IsJobId(jobId: string) {
    jobId != [] && '.' !in jobId && Sep !in jobId
  }

  /** With a job id and a language free of separators, the file name is a single proper path segment. */
  lemma FileNameIsSegment(language: string, jobId: string)
    requires IsJobId(jobId) && Sep !in language
    ensures IsFileName(FileName(language, jobId))
  {
    var stem := if language == "java" then "Main" else jobId;
    var name := FileName(language, jobId);
    assert name == stem + "." + language;
    assert name[0] == stem[0] && stem[0] != '.' by {
      assert stem[0] in stem;
    }
  }

  /** The path the source is written to: the codes directory joined with the file name. */
  function SourcePath(codesDir: string, language: string, jobId: string): (path: string)
    ensures IsFileName(FileName(language, jobId)) ==> Basename(path) == FileName(language, jobId)
  {
    var name := FileName(language, jobId);
    if IsFileName(name) then BasenameOfJoin(codesDir, name); Join(codesDir, name)
    else Join(codesDir, name)
  }

  /** Every Java job gets the one file name `Main.java`, whatever its job id. */
  lemma JavaFileNameIsFixed(jobId: string)
    ensures FileName("java", jobId) == "Main.java"
  {
  }

  /** Any other job's file is `<jobId>.<language>`. */
  lemma OtherFileNameIsJobId(language: string, jobId: string)
    requires language != "java"
    ensures FileName(language, jobId) == jobId + "." + language
  {
  }

  /** Two Java jobs are written to the identical path, whatever their job ids. */
  lemma JavaJobsShareOnePath(codesDir: string, jobId1: string, jobId2: string)
    ensures SourcePath(codesDir, "java", jobId1) == SourcePath(codesDir, "java", jobId2)
  {
  }

  /** Distinct proper segments joined onto one directory give distinct paths. */
  lemma JoinKeepsNamesApart(dir: string, a: string, b: string)
    requires IsFileName(a) && IsFileName(b)
    requires a != b
    ensures Join(dir, a) != Join(dir, b)
  {
    var x := JoinPrefix(dir);
    JoinFileName(dir, a);
    JoinFileName(dir, b);
    assert a == (x + a)[|x|..] && b == (x + b)[|x|..];
  }

  lemma FileNameKeepsJobsApart(language: string, jobId1: string, jobId2: string)
    requires language != "java"
    requires jobId1 != jobId2
    ensures FileName(language, jobId1) != FileName(language, jobId2)
  {
    var n1, n2 := FileName(language, jobId1), FileName(language, jobId2);
    if |jobId1| == |jobId2| {
      var k :| 0 <= k < |jobId1| && jobId1[k] != jobId2[k];
      assert n1[k] == jobId1[k] && n2[k] == jobId2[k];
    } else {
      assert |n1| != |n2|;
    }
  }

  /**
   * Outside Java, distinct job ids give distinct paths in the codes
   * directory, as long as the language holds no separator.
   */
  lemma {:induction false} DistinctJobsGetDistinctPaths(codesDir: string, language: string, jobId1: string, jobId2: string)
    requires language != "java" && Sep !in language
    requires IsJobId(jobId1) && IsJobId(jobId2)
    requires jobId1 != jobId2
    ensures SourcePath(codesDir, language, jobId1) != SourcePath(codesDir, language, jobId2)
  {
    FileNameKeepsJobsApart(language, jobId1, jobId2);
    FileNameIsSegment(language, jobId1);
    FileNameIsSegment(language, jobId2);
    JoinKeepsNamesApart(codesDir, FileName(language, jobId1), FileName(language, jobId2));
  }

  /**
   * The language is taken from the request as it is: a language `/../<tail>`
   * makes `<jobId>.` a directory that the `..` leaves again, so the job id
   * drops out of the path.
   */
  lemma ClimbingLanguage(codesDir: string, jobId: string, tail: string)
    requires codesDir != [] && IsJobId(jobId) && tail != []
    ensures SourcePath(codesDir, "/../" + tail, jobId) == Join(codesDir, tail)
  {
    var stem := jobId + ".";
    var up := ".." + [Sep] + tail;
    assert SourcePath(codesDir, "/../" + tail, jobId) == Join(codesDir + [Sep] + stem, up) by {
      var name := FileName("/../" + tail, jobId);
      ClimbingFileName(jobId, tail);
      assert codesDir + [Sep] + name == codesDir + [Sep] + stem + [Sep] + up;
    }
    assert Join(codesDir + [Sep] + stem, up) == Join(codesDir, tail) by {
      assert IsFileName(stem) by {
        assert stem[0] == jobId[0] && jobId[0] in jobId;
      }
      ClimbOutOfDirectory(codesDir, stem, tail);
    }
  }

  /** The file name for the language `/../<tail>`. */
  lemma ClimbingFileName(jobId: string, tail: string)
    ensures FileName("/../" + tail, jobId) == (jobId + ".") + [Sep] + (".." + [Sep] + tail)
  {
    var up := ".." + [Sep] + tail;
    var language := "/../" + tail;
    assert language == [Sep] + up;
    assert language != "java" by {
      assert language[0] == Sep;
    }
    assert jobId + "." + ([Sep] + up) == (jobId + ".") + [Sep] + up;
  }

  /** Such a language writes the sources of two different jobs to one path. */
  lemma ClimbingJobsCollide(codesDir: string, jobId1: string, jobId2: string, tail: string)
    requires codesDir != [] && IsJobId(jobId1) && IsJobId(jobId2) && tail != []
    ensures SourcePath(codesDir, "/../" + tail, jobId1) == SourcePath(codesDir, "/../" + tail, jobId2)
  {
    ClimbingLanguage(codesDir, jobId1, tail);
    ClimbingLanguage(codesDir, jobId2, tail);
  }

  /** With one more `..` the source is written beside the codes directory instead of inside it. */
  lemma ClimbingLanguageLeavesCodes(parent: string, codes: string, jobId: string, f: string)
    requires parent != [] && IsFileName(codes) && IsJobId(jobId) && f != []
    ensures SourcePath(parent + [Sep] + codes, "/../../" + f, jobId) == Join(parent, f)
  {
    assert "/../../" + f == "/../" + (".." + [Sep] + f);
    ClimbingLanguage(parent + [Sep] + codes, jobId, ".." + [Sep] + f);
    ClimbOutOfDirectory(parent, codes, f);
  }

  /** The codes directory as a store from path to file contents. */
  class FileStore {
    const codesDir: string
    var files: map<string, string>

    constructor (codesDir: string, files: map<string, string>)
      ensures this.codesDir == codesDir && this.files == files
    {
      this.codesDir := codesDir;
      this.files := files;
    }

    /**
     * Writes `code` for a new job and returns its path. No language is
     * refused: a file is written for any language string. The job id is the
     * one the caller drew (a fresh UUID in the running system).
     */
    method GenerateFile(language: string, code: string, jobId: string) returns (filepath: string)
      modifies this
      ensures filepath == SourcePath(codesDir, language, jobId)
      ensures files == old(files)[filepath := code]
      ensures forall p :: p in old(files) && p != filepath ==> p in files && files[p] == old(files)[p]
    {
      var ext := Extension(language);
      var filename := (if language == "java" then "Main" else jobId) + "." + ext;
      filepath := Join(codesDir, filename);
      files := files[filepath := code];
    }
  }
}
