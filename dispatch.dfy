/** The command line: the `__main__` guard (tvault.py:229-239) and `run`
    (tvault.py:44-73), first as a decision table, then carried out against
    the vault file. */
module Dispatch {
  import opened Failures
  import opened Environment
  import opened Vault
  import OrderedDict

  datatype Command =
    | ListServices
    | AddService(service: string, secret: string)
    | DeleteService(service: string)
    | ChangePassword
    | GenerateTotp(service: string)
    | ShowUsage

  /** What `run` decides before touching the vault: refuse for a missing
      required tool, or carry out a command, warning first when neither
      clipboard tool is installed. */
  datatype Plan = Refused(error: Error) | Dispatched(clipboardWarning: bool, command: Command)

  /** What a command line leads to: the help banner, or `run`. */
  datatype Invocation = Banner | Ran(plan: Plan)

  /** What a successful command shows. */
  datatype Output = Listing(names: seq<string>) | Code(service: string, code: string) | Done | Usage

  /** The tools `run` looks up, in the order it passes them. */
  const ToolNames: seq<string> := ["gpg", "oathtool", "xclip", "xsel"]

  /** The `match args[0], len(args)` of `run`, read both ways: which
      argument shapes select each command. */
  function Select(args: seq<string>): (c: Command)
    requires |args| >= 1
    ensures c == ListServices <==> args == ["-list"]
    ensures c == ChangePassword <==> args == ["-chpass"]
    ensures c.AddService? <==> |args| == 3 && args[0] == "-add"
    ensures c.AddService? ==> c == AddService(args[1], args[2])
    ensures c.DeleteService? <==> |args| == 2 && args[0] == "-del"
    ensures c.DeleteService? ==> c.service == args[1]
    ensures c.GenerateTotp? <==> |args| == 1 && args[0] != "-list" && args[0] != "-chpass"
    ensures c.GenerateTotp? ==> c.service == args[0]
    ensures c == ShowUsage <==>
              (|args| == 2 && args[0] != "-del") || (|args| == 3 && args[0] != "-add") || |args| > 3
  {
    assert |args| == 1 ==> args == [args[0]];
    match (args[0], |args|)
    case ("-list", 1) => ListServices
    case ("-add", 3) => AddService(args[1], args[2])
    case ("-del", 2) => DeleteService(args[1])
    case ("-chpass", 1) => ChangePassword
    case (service, 1) => GenerateTotp(service)
    case _ => ShowUsage
  }

  /** `run` up to the point where it reaches the vault: a missing GnuPG or
      oathtool refuses every command line, and with both present the line
      is dispatched, with the clipboard warning when neither clipboard
      tool was found. */
  function Run(args: seq<string>, tools: map<string, string>): (p: Plan)
    requires |args| >= 1
    ensures p.Refused? <==> "gpg" !in tools || "oathtool" !in tools
    ensures p.Refused? ==> p.error == ToolsMissing
    ensures p.Dispatched? ==> p.command == Select(args)
    ensures p.Dispatched? ==> (p.clipboardWarning <==> "xclip" !in tools && "xsel" !in tools)
  {
    if "gpg" !in tools || "oathtool" !in tools then Refused(ToolsMissing)
    else Dispatched("xclip" !in tools && "xsel" !in tools, Select(args))
  }

  /** The `__main__` guard; `argv` includes the program name. The banner is
      shown exactly for fewer than one or more than three arguments; past
      it, `-add` always carries both of its values. */
  function Invoke(argv: seq<string>, tools: map<string, string>): (i: Invocation)
    ensures i.Banner? <==> |argv| < 2 || |argv| > 4
    ensures i.Ran? ==> i.plan == Run(argv[1..], tools)
    ensures (i.Ran? && i.plan.Dispatched? && i.plan.command.AddService?) ==> |argv| == 4
  {
    if 2 > |argv| || |argv| > 4 then Banner else Ran(Run(argv[1..], tools))
  }

  /** A lone `-add` or `-del` is taken as a service name to generate for. */
  lemma LoneOptionIsServiceName()
    ensures Select(["-add"]) == GenerateTotp("-add")
    ensures Select(["-del"]) == GenerateTotp("-del")
  {
  }

  /** `run(args)` against the vault file at `getvaultpath()`: tools are looked
      up with `which`; a refused plan or the usage text leaves the file
      alone; reading commands leave it as `decrypt` does, so its presence,
      contents and passphrase change only by the first-run empty write. */
  method Execute(args: seq<string>, which: string -> Option, vault: VaultFile, gpg: Gpg,
                 oathtool: string -> Option) returns (r: Result<Output>)
    requires |args| >= 1
    modifies vault
    ensures !Found(which, "gpg") || !Found(which, "oathtool") ==>
              r == Err(ToolsMissing) && unchanged(vault)
    ensures Found(which, "gpg") && Found(which, "oathtool") && Select(args) == ShowUsage ==>
              r == Ok(Usage) && unchanged(vault)
    ensures Found(which, "gpg") && Found(which, "oathtool") &&
            (Select(args).ListServices? || Select(args).GenerateTotp?) ==>
              vault.LoadAttempted(gpg)
    ensures Select(args).DeleteService? && r.Ok? ==>
              var loaded := Load(old(vault.present), old(vault.plaintext), gpg);
              loaded.Ok? && Select(args).service in OrderedDict.Names(loaded.value)
  {
    var tools := GetToolPaths(ToolNames, which);
    var plan := Run(args, tools);
    if plan.Refused? {
      return Err(plan.error);
    }
    match plan.command
    case ListServices =>
      var names := vault.ListServices(gpg);
      r := if names.Ok? then Ok(Listing(names.value)) else Err(names.error);
    case AddService(service, secret) =>
      var done := vault.AddService(service, secret, gpg);
      r := if done.Ok? then Ok(Done) else Err(done.error);
    case DeleteService(service) =>
      var done := vault.DeleteService(service, gpg);
      r := if done.Ok? then Ok(Done) else Err(done.error);
    case ChangePassword =>
      var done := vault.ChangePassword(gpg);
      r := if done.Ok? then Ok(Done) else Err(done.error);
    case GenerateTotp(service) =>
      var code := vault.GenerateTotp(service, gpg, oathtool);
      r := if code.Ok? then Ok(Code(service, code.value)) else Err(code.error);
    case ShowUsage =>
      r := Ok(Usage);
  }
}
