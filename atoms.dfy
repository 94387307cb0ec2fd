/** Atoms: primitive, idempotent descriptions of system changes. Only their
    descriptions are modelled; executing them is the executor's business. */
module Atoms {
  import opened Wrappers
  import opened Numerals

  /** An `Exec` atom: a command line, an optional working directory, and a
      mark telling the executor to escalate privileges. */
  datatype Exec = Exec(command: string, arguments: seq<string>, workingDir: Option<string>, privileged: bool)

  /** `Exec { command, arguments, ..Default::default() }`: no working
      directory, not privileged. */
  function Command(command: string, arguments: seq<string>): Exec {
    Exec(command, arguments, None, false)
  }

  datatype Atom =
    | Run(exec: Exec)
    | Create(path: string)
    | Chmod(path: string, mode: uint32)
    | SetContents(path: string, contents: string)
}
