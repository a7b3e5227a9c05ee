/**
 * What the library reaches outside itself for: the image codecs, external
 * processes and the file system. Codecs and processes are oracles, functions
 * fixed for the whole run; the file contents, the live temp files and the
 * thread's interrupt flag are the mutable state of a Runtime.
 */
module Environment {
  import opened Wrappers
  import opened Strings
  import opened Streams
  import opened Images
  import opened ImageFormat

  /** How a started external process ended, as runProcess observes it. */
  datatype ProcessOutcome =
    | Finished(exitCode: int, output: string)  // exited within the timeout; output is stdout and stderr
    | TimedOut                                 // still running when waitFor gave up
    | LaunchFailed                             // start() or the output read threw an IOException
    | Interrupted                              // waitFor threw an InterruptedException

  /** The regular files and their contents. */
  type FileMap = map<Path, seq<Byte>>

  /** A process run: its outcome and the files as it left them. */
  datatype ProcessRun = ProcessRun(outcome: ProcessOutcome, files: FileMap)

  /** The files after running a command: a process that did not start changes none. */
  function FilesAfterRun(env: Oracles, command: seq<string>, timeoutSeconds: nat, files: FileMap): FileMap
  {
    var run := env.run(command, timeoutSeconds, files);
    if run.outcome.LaunchFailed? then files else run.files
  }

  /** The writer settings an image is encoded with. */
  datatype Encoding =
    | CodecDefault            // ImageIO.write
    | WriterDefault           // an ImageWriter with its default parameters
    | Compressed(quality: real) // an ImageWriter with explicit compression quality

  datatype Oracles = Oracles(
    // ImageIO.read: the decoded image, or null when no reader recognises the bytes
    decode: seq<Byte> -> Option<BufferedImage>,
    // ImageIO.getImageWritersByFormatName(name).hasNext(), also what makes ImageIO.write return true
    hasWriter: Format -> bool,
    // ImageWriteParam.canWriteCompressed() of the first writer
    canWriteCompressed: Format -> bool,
    // the bytes a writer produces
    encode: (BufferedImage, Format, Encoding) -> seq<Byte>,
    // an external process given its command, its timeout in seconds and the files it sees
    run: (seq<string>, nat, FileMap) -> ProcessRun,
    // Files.isExecutable
    isExecutable: Path -> bool,
    // Files.isDirectory
    isDirectory: Path -> bool,
    // whether Files.createDirectories returns normally
    canCreateDirectories: Path -> bool,
    // Files.newDirectoryStream: the entries in iteration order, or None on an IOException
    listing: Path -> Option<seq<Path>>,
    // System.getProperty("os.name", "")
    osName: string,
    // the directory relative paths resolve against
    workingDirectory: Path)

  /** Path.toAbsolutePath().toString(). */
  function Absolute(env: Oracles, p: Path): (r: Path)
    ensures |p| > 0 && p[0] == '/' ==> r == p
    ensures !(|p| > 0 && p[0] == '/') ==> r == Resolve(env.workingDirectory, p)
  {
    if |p| > 0 && p[0] == '/' then p else Resolve(env.workingDirectory, p)
  }

  /** The name of the n-th temp file with the given prefix and suffix. */
  function TempFileName(prefix: string, n: nat, suffix: string): string
  {
    prefix + DecimalString(n) + suffix
  }

  lemma TempFileNameInjective(prefix: string, m: nat, n: nat, suffix: string)
    requires TempFileName(prefix, m, suffix) == TempFileName(prefix, n, suffix)
    ensures m == n
  {
    var a := TempFileName(prefix, m, suffix);
    var b := TempFileName(prefix, n, suffix);
    assert |DecimalString(m)| == |DecimalString(n)|;
    assert DecimalString(m) == a[|prefix|..|a| - |suffix|];
    assert DecimalString(n) == b[|prefix|..|b| - |suffix|];
    DecimalStringInjective(m, n);
  }

  lemma ResolveInjective(dir: Path, a: string, b: string)
    requires Resolve(dir, a) == Resolve(dir, b)
    ensures a == b
  {
    var p := Resolve(dir, a);
    assert a == p[|p| - |a|..];
  }

  class Runtime {
    /** Every regular file and its contents. */
    var files: FileMap
    /** The temp files the library created and has not deleted yet. */
    var temps: set<Path>
    /** Where the next temp file name search starts. */
    var nextTemp: nat
    /** The current thread's interrupt flag. */
    var interrupted: bool
    /** java.io.tmpdir. */
    const tempDir: Path
    /** Every command started so far, in order. */
    ghost var launched: seq<seq<string>>

    constructor (initial: FileMap, tmp: Path)
      ensures files == initial && temps == {} && nextTemp == 0 && !interrupted && tempDir == tmp
      ensures launched == []
    {
      files := initial;
      temps := {};
      nextTemp := 0;
      interrupted := false;
      tempDir := tmp;
      launched := [];
    }

    function TempPath(prefix: string, n: nat, suffix: string): Path
    {
      Resolve(tempDir, TempFileName(prefix, n, suffix))
    }

    /**
     * Files.createTempFile(prefix, suffix): a new empty file in the temp
     * directory whose name is neither a file nor a live temp file yet.
     */
    method CreateTempFile(prefix: string, suffix: string) returns (p: Path)
      modifies this
      ensures p !in old(files) && p !in old(temps)
      ensures files == old(files)[p := []] && temps == old(temps) + {p}
      ensures exists n: nat :: p == TempPath(prefix, n, suffix)
      ensures interrupted == old(interrupted) && launched == old(launched)
    {
      var n := nextTemp;
      p := TempPath(prefix, n, suffix);
      ghost var taken := files.Keys + temps;
      ghost var seen: set<Path> := {};
      while p in files || p in temps
        invariant p == TempPath(prefix, n, suffix)
        invariant seen <= taken
        invariant forall k: nat {:trigger TempPath(prefix, k, suffix)} :: k >= n ==> TempPath(prefix, k, suffix) !in seen
        decreases |taken - seen|
      {
        assert p in taken - seen;
        assert taken - (seen + {p}) < taken - seen;
        seen := seen + {p};
        forall k: nat | k >= n + 1
          ensures TempPath(prefix, k, suffix) != p
        {
          if TempPath(prefix, k, suffix) == p {
            ResolveInjective(tempDir, TempFileName(prefix, k, suffix), TempFileName(prefix, n, suffix));
            TempFileNameInjective(prefix, k, n, suffix);
          }
        }
        n := n + 1;
        p := TempPath(prefix, n, suffix);
      }
      nextTemp := n + 1;
      files := files[p := []];
      temps := temps + {p};
    }

    /** Files.deleteIfExists(p). */
    method DeleteIfExists(p: Path)
      modifies this
      ensures files == old(files) - {p} && temps == old(temps) - {p}
      ensures interrupted == old(interrupted) && launched == old(launched)
    {
      files := files - {p};
      temps := temps - {p};
    }

    /** Create or replace the file p with the given contents. */
    method WriteFile(p: Path, bytes: seq<Byte>)
      modifies this
      ensures files == old(files)[p := bytes] && temps == old(temps)
      ensures interrupted == old(interrupted) && launched == old(launched)
    {
      files := files[p := bytes];
    }

    /** Start a process and wait for it; a process that did not start changes no file. */
    method Launch(env: Oracles, command: seq<string>, timeoutSeconds: nat) returns (outcome: ProcessOutcome)
      modifies this
      ensures outcome == env.run(command, timeoutSeconds, old(files)).outcome
      ensures files == FilesAfterRun(env, command, timeoutSeconds, old(files))
      ensures temps == old(temps) && interrupted == old(interrupted)
      ensures launched == old(launched) + [command]
    {
      launched := launched + [command];
      var run := env.run(command, timeoutSeconds, files);
      outcome := run.outcome;
      if !outcome.LaunchFailed? {
        files := run.files;
      }
    }
  }
}
