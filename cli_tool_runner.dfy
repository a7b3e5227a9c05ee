/**
 * CliToolRunner: which external tools each non-standard format needs, where
 * they are looked up, and how a tool run's outcome becomes success or an error.
 */
module CliToolRunner {
  import opened Wrappers
  import opened Errors
  import opened Strings
  import opened ImageFormat
  import opened Environment

  /** CLI_TOOLS: the encoder and the decoder of each format that needs tools. */
  const CliTools: map<Format, seq<string>> :=
    map[WEBP := ["cwebp", "dwebp"], AVIF := ["heif-enc", "heif-dec"]]

  /** TIMEOUT_SECONDS, for conversions. */
  const TimeoutSeconds: nat := 30

  /** How long a which/where lookup may take. */
  const LookupTimeoutSeconds: nat := 5

  /** Exactly the formats outside the built-in codecs have tools, two each. */
  lemma CliToolsCoverNonStandard(f: Format)
    ensures f in CliTools <==> !IsStandard(f)
    ensures f in CliTools ==> |CliTools[f]| == 2
  {
  }

  /** The static, mutable tool directory; None resolves tools from PATH. */
  class ToolSettings {
    var toolDirectory: Option<Path>

    constructor ()
      ensures toolDirectory.None?
    {
      toolDirectory := None;
    }

    /** setToolDirectory(directory); null resets to PATH lookup. */
    method SetToolDirectory(directory: Option<Path>)
      modifies this
      ensures toolDirectory == directory
    {
      toolDirectory := directory;
    }

    /** getToolDirectory(). */
    method GetToolDirectory() returns (directory: Option<Path>)
      ensures directory == toolDirectory
    {
      directory := toolDirectory;
    }
  }

  /** The value set last is the value read, and setting None resets it. */
  method SetThenGet(settings: ToolSettings, first: Option<Path>, second: Option<Path>)
      returns (afterFirst: Option<Path>, afterSecond: Option<Path>)
    modifies settings
    ensures afterFirst == first && afterSecond == second
    ensures settings.toolDirectory == second
  {
    settings.SetToolDirectory(first);
    afterFirst := settings.GetToolDirectory();
    settings.SetToolDirectory(second);
    afterSecond := settings.GetToolDirectory();
  }

  /** resolveToolPath(toolName): inside the tool directory when one is set, else the bare name. */
  function ResolveToolPath(directory: Option<Path>, toolName: string): (r: Path)
    ensures directory.None? ==> r == toolName
    ensures directory.Some? ==> r == Resolve(directory.value, toolName)
  {
    match directory
    case None => toolName
    case Some(d) => Resolve(d, toolName)
  }

  /** Whichever way it is resolved, the tool keeps its own file name. */
  lemma ResolvedToolKeepsName(directory: Option<Path>, toolName: string)
    requires '/' !in toolName
    ensures FileName(ResolveToolPath(directory, toolName)) == toolName
  {
    if directory.Some? {
      FileNameOfResolve(directory.value, toolName);
    } else {
      assert LastIndexOf(toolName, '/') == -1;
    }
  }

  /** "where" on an operating system whose lower-cased name contains "win", else "which". */
  function LookupCommand(osName: string): (r: string)
    ensures r == "where" <==> Contains(ToLower(osName), "win")
    ensures r == "where" || r == "which"
  {
    if Contains(ToLower(osName), "win") then "where" else "which"
  }

  /** A name starting "Win", such as "Windows 11", selects where. */
  lemma WindowsUsesWhere(osName: string)
    requires |osName| >= 3 && osName[..3] == "Win"
    ensures LookupCommand(osName) == "where"
  {
    var l := ToLower(osName);
    assert l[0..3] == "win";
    ContainsAt(l, "win", 0);
  }

  /** A name without the letter w, such as "Linux" or "Mac OS X", selects which. */
  lemma OtherSystemsUseWhich(osName: string)
    requires 'w' !in osName && 'W' !in osName
    ensures LookupCommand(osName) == "which"
  {
    var l := ToLower(osName);
    assert 'w' !in l by {
      forall i | 0 <= i < |l| ensures l[i] != 'w' {
        assert l[i] == LowerChar(osName[i]);
      }
    }
    NotContainedWithoutFirstChar(l, "win");
  }

  /**
   * isToolAvailable(tool): with a tool directory, whether the file there is
   * executable; otherwise whether the lookup command finished in time with
   * exit code 0. Every exception counts as unavailable.
   */
  function IsToolAvailable(env: Oracles, files: FileMap, directory: Option<Path>, tool: string): bool
  {
    match directory
    case Some(d) => env.isExecutable(Resolve(d, tool))
    case None =>
      var outcome := env.run([LookupCommand(env.osName), tool], LookupTimeoutSeconds, files).outcome;
      outcome.Finished? && outcome.exitCode == 0
  }

  /** With a directory set, the PATH is never consulted. */
  lemma DirectoryDecidesAvailability(env: Oracles, files: FileMap, d: Path, tool: string)
    ensures IsToolAvailable(env, files, Some(d), tool) == env.isExecutable(ResolveToolPath(Some(d), tool))
  {
  }

  /** tools.stream().allMatch(isToolAvailable). */
  function AllAvailable(env: Oracles, files: FileMap, directory: Option<Path>, tools: seq<string>): (r: bool)
    ensures r <==> forall i :: 0 <= i < |tools| ==> IsToolAvailable(env, files, directory, tools[i])
    decreases |tools|
  {
    if tools == [] then true
    else IsToolAvailable(env, files, directory, tools[0]) && AllAvailable(env, files, directory, tools[1..])
  }

  /** isCliFormatSupported(format): a format with tools, all of them available. */
  function IsCliFormatSupported(env: Oracles, files: FileMap, directory: Option<Path>, format: Format): (r: bool)
    ensures r <==> format in CliTools && forall t :: t in CliTools[format] ==> IsToolAvailable(env, files, directory, t)
  {
    if format !in CliTools then false else AllAvailable(env, files, directory, CliTools[format])
  }

  /** A built-in format never counts as CLI-supported; WebP and AVIF need both of their tools. */
  lemma CliSupportByFormat(env: Oracles, files: FileMap, directory: Option<Path>)
    ensures forall f :: IsStandard(f) ==> !IsCliFormatSupported(env, files, directory, f)
    ensures IsCliFormatSupported(env, files, directory, WEBP) <==>
              IsToolAvailable(env, files, directory, "cwebp") && IsToolAvailable(env, files, directory, "dwebp")
    ensures IsCliFormatSupported(env, files, directory, AVIF) <==>
              IsToolAvailable(env, files, directory, "heif-enc") && IsToolAvailable(env, files, directory, "heif-dec")
  {
    assert CliTools[WEBP] == ["cwebp", "dwebp"];
    assert CliTools[AVIF] == ["heif-enc", "heif-dec"];
  }

  /** appendArg(parts, arg): a new array holding parts followed by arg. */
  method AppendArg(parts: array<string>, arg: string) returns (result: array<string>)
    ensures fresh(result)
    ensures result[..] == parts[..] + [arg]
  {
    result := new string[parts.Length + 1];
    var i := 0;
    while i < parts.Length
      invariant 0 <= i <= parts.Length
      invariant forall j :: 0 <= j < i ==> result[j] == parts[j]
    {
      result[i] := parts[i];
      i := i + 1;
    }
    result[parts.Length] := arg;
  }

  /**
   * The error runProcess raises for an outcome: none for exit code 0 within
   * the timeout; otherwise timeout, non-zero exit (with the trimmed output),
   * a failed start, or interruption, each naming command[0].
   */
  function OutcomeError(tool: string, outcome: ProcessOutcome): (r: Outcome<Error>)
    ensures r.Pass? <==> outcome.Finished? && outcome.exitCode == 0
    ensures outcome.TimedOut? ==> r == Fail(ToolTimedOut(tool))
    ensures outcome.LaunchFailed? ==> r == Fail(ToolNotFound(tool))
    ensures outcome.Interrupted? ==> r == Fail(ToolInterrupted(tool))
    ensures outcome.Finished? && outcome.exitCode != 0 ==>
              r == Fail(ToolFailed(tool, outcome.exitCode, Trim(outcome.output)))
  {
    match outcome
    case TimedOut => Fail(ToolTimedOut(tool))
    case Finished(code, output) => if code != 0 then Fail(ToolFailed(tool, code, Trim(output))) else Pass
    case LaunchFailed => Fail(ToolNotFound(tool))
    case Interrupted => Fail(ToolInterrupted(tool))
  }

  /** runProcess(command): run with the 30 s timeout and classify the outcome. */
  method RunProcess(env: Oracles, rt: Runtime, command: seq<string>) returns (r: Outcome<Error>)
    requires |command| > 0
    modifies rt
    ensures var run := env.run(command, TimeoutSeconds, old(rt.files));
            && r == OutcomeError(command[0], run.outcome)
            && rt.files == FilesAfterRun(env, command, TimeoutSeconds, old(rt.files))
            && rt.interrupted == (old(rt.interrupted) || run.outcome.Interrupted?)
    ensures rt.temps == old(rt.temps) && rt.launched == old(rt.launched) + [command]
  {
    var outcome := rt.Launch(env, command, TimeoutSeconds);
    if outcome.Interrupted? {
      rt.interrupted := true;
    }
    r := OutcomeError(command[0], outcome);
  }
}
