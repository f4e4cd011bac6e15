/** The command-line interface of one API (`CLIInterfaceAPI`): named commands and their dispatch. */
module CliInterface {
  import opened Model

  /** `CLIInterfaceAPI`: the owning API and its commands by name. */
  datatype Cli = Cli(api: ApiId, commands: map<string, Opaque>)

  /** What calling the interface does with the process arguments. */
  datatype CliOutcome =
      /** `sys.exit(status)`. */
    | Exit(status: int)
      /** The command is invoked with no arguments, after `argv` has been rewritten. */
    | Run(command: Opaque, argv: seq<string>)

  /** `CLIInterfaceAPI(api)`: no commands yet. */
  function NewCli(api: ApiId): (c: Cli)
    ensures c.api == api && c.commands == map[]
  {
    Cli(api, map[])
  }

  /**
   * `CLIInterfaceAPI.__call__`: with no command name, or an unknown one, in `argv[1]` the
   * process exits with status 1; otherwise that name is popped from `argv` and its command is run.
   */
  function Call(cli: Cli, argv: seq<string>): (r: CliOutcome)
    ensures r.Exit? <==> |argv| <= 1 || argv[1] !in cli.commands
    ensures r.Exit? ==> r.status == 1
    ensures r.Run? ==> r.command == cli.commands[argv[1]]
    ensures r.Run? ==> |r.argv| == |argv| - 1 && r.argv[0] == argv[0]
    ensures r.Run? ==> forall i :: 1 <= i < |r.argv| ==> r.argv[i] == argv[i + 1]
  {
    if !(|argv| > 1) || argv[1] !in cli.commands then Exit(1)
    else Run(cli.commands[argv[1]], argv[..1] + argv[2..])
  }

  /** Putting the popped command name back at position 1 restores the original arguments. */
  lemma CallPopsOnlyTheCommandName(cli: Cli, argv: seq<string>)
    requires Call(cli, argv).Run?
    ensures var rest := Call(cli, argv).argv;
            rest[..1] + [argv[1]] + rest[1..] == argv
  {
    var rest := Call(cli, argv).argv;
    assert forall i :: 2 <= i < |argv| ==> (rest[..1] + [argv[1]] + rest[1..])[i] == rest[i - 1];
  }

  /** Registering a command under a name makes that name dispatch to it. */
  lemma RegisteredCommandRuns(cli: Cli, name: string, command: Opaque, argv: seq<string>)
    requires |argv| > 1 && argv[1] == name
    ensures Call(cli.(commands := cli.commands[name := command]), argv).Run?
    ensures Call(cli.(commands := cli.commands[name := command]), argv).command == command
  {
  }
}
