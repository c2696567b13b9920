/** Command templates and the executor's rails (dispatch/dispatch/executor.py:40-102). */
module Executor {
  import opened Common

  type Args = map<string, string>

  /** The proposal as checkpointed: the selection, what it rendered to and its hash. */
  datatype Proposal = Proposal(action: string, args: Args, justification: string, commands: seq<string>, hash: string)

  const OBSERVE_ONLY_NOTE := "observe only \U{2014} no commands"

  const SCENARIOS := ["auth_failure", "registration_reject", "registration_timeout",
                      "pdu_session_reject_slice", "pdu_session_reject_other",
                      "pdu_session_timeout", "pdu_session_rsp_timeout",
                      "sbi_udm_timeout", "sbi_nssf_reject",
                      "n4_upf_timeout"]

  /** The sandbox: the services of its compose file, if there is one, and how paths and IMSIs are checked. */
  datatype Sandbox = Sandbox(root: string, services: Option<set<string>>,
                             pathText: string -> string, inside: string -> bool, isImsi: string -> bool)

  function Arg(args: Args, key: string): string {
    if key in args then args[key] else ""
  }

  /** None stands for the ValueError. */
  function Render(box: Sandbox, action: string, args: Args): Option<seq<string>> {
    if action == "restart_nf" then
      if "nf" in args && box.services.Some? && args["nf"] in box.services.value then
        Some(["docker compose --project-directory " + box.root + "/core restart " + args["nf"]])
      else None
    else if action == "revert_config" then
      if box.inside(Arg(args, "path")) then
        Some(["git -C " + box.root + " checkout -- " + box.pathText(Arg(args, "path"))])
      else None
    else if action == "reseed_subscriber" then
      if box.isImsi(Arg(args, "imsi")) then
        Some(["docker compose --project-directory " + box.root + "/core run --rm seed " + Arg(args, "imsi")])
      else None
    else if action == "rerun_capture" then
      if "scenario" in args && args["scenario"] in SCENARIOS then
        Some(["bash " + box.root + "/capture.sh --scenario " + args["scenario"]])
      else None
    else if action == "observe_only" then Some([])
    else None
  }

  /** The rails: the five actions, each with the value it needs, checked, in its own command. */
  ghost predicate Allowed(box: Sandbox, action: string, args: Args, commands: seq<string>) {
    || (action == "restart_nf" && "nf" in args && box.services.Some? && args["nf"] in box.services.value
        && commands == ["docker compose --project-directory " + box.root + "/core restart " + args["nf"]])
    || (action == "revert_config" && box.inside(if "path" in args then args["path"] else "")
        && commands == ["git -C " + box.root + " checkout -- "
                        + box.pathText(if "path" in args then args["path"] else "")])
    || (action == "reseed_subscriber" && box.isImsi(if "imsi" in args then args["imsi"] else "")
        && commands == ["docker compose --project-directory " + box.root + "/core run --rm seed "
                        + (if "imsi" in args then args["imsi"] else "")])
    || (action == "rerun_capture" && "scenario" in args && KnownScenario(args["scenario"])
        && commands == ["bash " + box.root + "/capture.sh --scenario " + args["scenario"]])
    || (action == "observe_only" && commands == [])
  }

  ghost predicate KnownScenario(name: string) {
    || name == "auth_failure" || name == "registration_reject" || name == "registration_timeout"
    || name == "pdu_session_reject_slice" || name == "pdu_session_reject_other" || name == "pdu_session_timeout"
    || name == "pdu_session_rsp_timeout" || name == "sbi_udm_timeout" || name == "sbi_nssf_reject"
    || name == "n4_upf_timeout"
  }

  /** What is rendered keeps to the rails, and whatever keeps to them is rendered. */
  lemma RenderIsAllowed(box: Sandbox, action: string, args: Args, commands: seq<string>)
    ensures Render(box, action, args) == Some(commands) <==> Allowed(box, action, args, commands)
  {
  }

  function DryRun(box: Sandbox, action: string, args: Args): Option<seq<string>> {
    var commands := Render(box, action, args);
    if commands == Some([]) then Some([OBSERVE_ONLY_NOTE]) else commands
  }

  /** The stored commands without the note. */
  function Filtered(commands: seq<string>): seq<string> {
    if commands == [] then []
    else
      var last := commands[|commands| - 1];
      Filtered(commands[..|commands| - 1]) + if last == OBSERVE_ONLY_NOTE then [] else [last]
  }

  /** No template renders the note, so filtering a dry run gives back exactly what was rendered. */
  lemma FilteredDryRunIsRender(box: Sandbox, action: string, args: Args)
    ensures DryRun(box, action, args).Some? <==> Render(box, action, args).Some?
    ensures DryRun(box, action, args).Some? ==>
              Some(Filtered(DryRun(box, action, args).value)) == Render(box, action, args)
  {
    var commands := Render(box, action, args);
    if commands.Some? {
      if commands.value == [] {
        FilteredOne(OBSERVE_ONLY_NOTE);
      } else {
        assert |commands.value| == 1;
        var command := commands.value[0];
        assert command[0] in "dgb" && OBSERVE_ONLY_NOTE[0] == 'o';
        FilteredOne(command);
        assert commands.value == [command];
      }
    }
  }

  lemma FilteredOne(command: string)
    ensures Filtered([command]) == if command == OBSERVE_ONLY_NOTE then [] else [command]
  {
    assert [command][..0] == [];
  }

  class CommandRunner {
    const box: Sandbox
    /** Every command the runner has received. */
    var calls: seq<string>

    constructor (box: Sandbox)
      ensures this.box == box && calls == []
    {
      this.box, calls := box, [];
    }

    /** Runs the commands only if they are what the proposal renders to. */
    method Apply(p: Proposal, commands: seq<string>) returns (ok: bool)
      modifies this
      ensures ok <==> Allowed(box, p.action, p.args, commands)
      ensures calls == old(calls) + if ok then commands else []
    {
      hide Allowed, Render;
      RenderIsAllowed(box, p.action, p.args, commands);
      var expected := Render(box, p.action, p.args);
      if expected != Some(commands) {
        return false;
      }
      for i := 0 to |commands|
        invariant calls == old(calls) + commands[..i]
      {
        calls := calls + [commands[i]];
      }
      assert commands[..|commands|] == commands;
      ok := true;
    }
  }
}
