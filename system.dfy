/** The operating system as the filter sees it: the set of paths that exist,
    paths whose removal fails, and child processes. A child process is an
    oracle: given the command and the files that exist when it starts, it
    either cannot be started, or it finishes with an exit status (none when a
    signal ended it), some standard output and the files that exist when it
    has finished. */
module System {
  import opened Common

  /** A program and its argument vector, built one argument at a time. */
  datatype Command = Command(program: string, args: seq<string>) {
    function Arg(a: string): Command
    {
      Command(program, args + [a])
    }
  }

  /** Two arguments appended one after the other end the argument vector
      in that order. */
  lemma TwoArgs(c: Command, a: string, b: string)
    ensures c.Arg(a).Arg(b) == Command(c.program, c.args + [a, b])
  {
  }

  datatype ProcessOutput = ProcessOutput(status: Option<int>, stdout: seq<bv8>, files: set<Path>)

  /** `Command::output`: `None` when the program cannot be started. */
  type Runner = (Command, set<Path>) -> Option<ProcessOutput>

  /** What the filter does not control: which removals fail, and what child
      processes do. */
  datatype Environment = Environment(protected: set<Path>, run: Runner)

  /** The outcome of a step together with the files that exist after it. */
  datatype Effect<+T> = Effect(result: Result<T>, files: set<Path>)

  class Host {
    var files: set<Path>
    const env: Environment

    constructor (files: set<Path>, env: Environment)
      ensures this.files == files && this.env == env
    {
      this.files := files;
      this.env := env;
    }

    /** `Path::exists`. */
    predicate Exists(p: Path)
      reads this
    {
      p in files
    }

    /** `fs::remove_file`. */
    method RemoveFile(p: Path) returns (ok: bool)
      modifies this
      ensures ok == (p in old(files) && p !in env.protected)
      ensures files == if ok then old(files) - {p} else old(files)
    {
      ok := p in files && p !in env.protected;
      if ok {
        files := files - {p};
      }
    }

    /** `Command::output`: start the program, wait for it, collect its output. */
    method Output(cmd: Command) returns (r: Option<ProcessOutput>)
      modifies this
      ensures r == env.run(cmd, old(files))
      ensures files == if r.Some? then r.value.files else old(files)
    {
      r := env.run(cmd, files);
      if r.Some? {
        files := r.value.files;
      }
    }
  }
}
