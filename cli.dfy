/**
 * The checks __main__ makes before it builds a CreateTestData and runs it:
 * the tar file must exist, the output directory is created when missing, and
 * the study description must follow the PI^project convention.
 */
module Cli {
  /** The study description separates PI and project with a '^'. */
  predicate StudyDescriptionValid(studyDescription: string)
  {
    '^' in studyDescription
  }

  /** Why __main__ calls sys.exit(1). */
  datatype Reason = TarMissing | NoCaret

  /** How __main__ ends its checks. */
  datatype Verdict = Run | Exit(reason: Reason) | NameErrorCrash

  /** The verdict, and whether os.makedirs creates the output directory on the way. */
  datatype Outcome = Outcome(makesOutputDir: bool, verdict: Verdict)

  /**
   * The checks as written: the makedirs call names `output_dir`, a variable
   * __main__ never defines, so a missing output directory raises NameError
   * before the study description is looked at.
   */
  function PreflightAsWritten(tarIsFile: bool, outputDirExists: bool, studyDescription: string): (o: Outcome)
    ensures !o.makesOutputDir
  {
    if !tarIsFile then Outcome(false, Exit(TarMissing))
    else if !outputDirExists then Outcome(false, NameErrorCrash)
    else if !StudyDescriptionValid(studyDescription) then Outcome(false, Exit(NoCaret))
    else Outcome(false, Run)
  }

  /** As written, a valid invocation whose output directory does not exist yet crashes. */
  lemma AsWrittenCrashesOnNewOutputDir(studyDescription: string)
    requires StudyDescriptionValid(studyDescription)
    ensures PreflightAsWritten(true, false, studyDescription).verdict == NameErrorCrash
    ensures Preflight(true, false, studyDescription).verdict == Run
  {
  }

  /** The checks as intended: makedirs creates args.output_dir. */
  function Preflight(tarIsFile: bool, outputDirExists: bool, studyDescription: string): (o: Outcome)
    ensures o.verdict == Run <==> tarIsFile && StudyDescriptionValid(studyDescription)
    ensures o.verdict == Exit(TarMissing) <==> !tarIsFile
    ensures o.verdict == Exit(NoCaret) <==> tarIsFile && !StudyDescriptionValid(studyDescription)
    ensures o.makesOutputDir <==> tarIsFile && !outputDirExists
  {
    if !tarIsFile then Outcome(false, Exit(TarMissing))
    else if !StudyDescriptionValid(studyDescription) then Outcome(!outputDirExists, Exit(NoCaret))
    else Outcome(!outputDirExists, Run)
  }

  /** Where the output directory already exists, the two agree. */
  lemma PreflightAgreesWhenOutputDirExists(tarIsFile: bool, studyDescription: string)
    ensures PreflightAsWritten(tarIsFile, true, studyDescription) == Preflight(tarIsFile, true, studyDescription)
  {
  }

  /** The default study description passes the check. */
  lemma DefaultStudyDescriptionValid()
    ensures StudyDescriptionValid("PI^project")
  {
    assert "PI^project"[2] == '^';
  }
}
