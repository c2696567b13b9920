/** The approval gate (dispatch/dispatch/graph.py:197-247 and 279-291, dispatch/dispatch/cli.py:110-122): what
    reaches the runner over any run of handle, approve, reject and edits of the records. */
module Gate {
  import opened Common
  import opened Executor
  import Memory

  /** Where a checkpoint stands. Decided: the approval step is done, the execute step failed. */
  datatype Incident =
    | Waiting(proposal: Option<Proposal>)
    | Decided(proposal: Option<Proposal>, decision: string, execute: bool)
    | Done(proposal: Option<Proposal>, decision: string, execute: bool)

  datatype Approval = Pending | Rejected | ApprovedDryRun | ApprovedExecuted

  /** The texts this module only passes on: hashes, records and the rest of an Episode. */
  datatype Texts = Texts(
    hash: (string, Args, string) -> string,
    record: (string, Option<Proposal>, Approval, seq<string>) -> string,
    readHash: string -> Option<string>,
    episode: (string, Option<Proposal>, Approval) -> Memory.Episode)

  datatype Result = Refused | Finished(log: seq<string>)

  /** The checkpointed proposal lists the commands that its action and arguments stand for, or says that there are
      none, under its own hash. */
  ghost predicate Genuine(texts: Texts, box: Sandbox, p: Proposal) {
    && p.commands != []
    && (|| Allowed(box, p.action, p.args, p.commands)
        || (Allowed(box, p.action, p.args, []) && p.commands == ["observe only \U{2014} no commands"]))
    && p.hash == texts.hash(p.action, p.args, p.justification)
  }

  ghost predicate Applied(i: Incident) {
    i.Done? && i.proposal.Some? && i.decision == "approve" && i.execute
  }

  /** What the runner has received, incident by incident. */
  type History = seq<(string, seq<string>)>

  ghost function Received(history: History): seq<string> {
    if history == [] then [] else Received(history[..|history| - 1]) + history[|history| - 1].1
  }

  lemma ReceivedSnoc(history: History, id: string, commands: seq<string>)
    ensures Received(history + [(id, commands)]) == Received(history) + commands
  {
    assert (history + [(id, commands)])[..|history|] == history;
  }

  /** The history holds each executed incident once, with exactly the commands its proposal stands for. */
  ghost predicate Exact(box: Sandbox, incidents: map<string, Incident>, history: History) {
    && (forall k :: 0 <= k < |history| ==>
          && history[k].0 in incidents && Applied(incidents[history[k].0])
          && Allowed(box, incidents[history[k].0].proposal.value.action,
                     incidents[history[k].0].proposal.value.args, history[k].1))
    && (forall k, l :: 0 <= k < l < |history| ==> history[k].0 != history[l].0)
    && (forall id :: id in incidents && Applied(incidents[id]) ==> exists k :: 0 <= k < |history| && history[k].0 == id)
  }

  /** Holds of every state the gate can reach. */
  ghost predicate Sound(texts: Texts, box: Sandbox, incidents: map<string, Incident>, recorded: set<string>,
                        history: History)
  {
    && (forall id :: id in incidents ==> id in recorded && Honest(texts, box, incidents[id]))
    && Exact(box, incidents, history)
  }

  ghost predicate Honest(texts: Texts, box: Sandbox, i: Incident) {
    && (i.proposal.Some? ==> Genuine(texts, box, i.proposal.value))
    && (!i.Waiting? ==> i.decision == "approve" || i.decision == "reject")
  }

  lemma ExactIdle(box: Sandbox, incidents: map<string, Incident>, history: History, id: string, next: Incident)
    requires Exact(box, incidents, history) && id in incidents && !incidents[id].Done? && !Applied(next)
    ensures Exact(box, incidents[id := next], history)
  {
    hide Allowed;
  }

  lemma ExactRan(box: Sandbox, incidents: map<string, Incident>, history: History, id: string, next: Incident,
                 commands: seq<string>)
    requires Exact(box, incidents, history) && id in incidents && !incidents[id].Done? && Applied(next)
    requires Allowed(box, next.proposal.value.action, next.proposal.value.args, commands)
    ensures Exact(box, incidents[id := next], history + [(id, commands)])
  {
    hide Allowed;
    var after, longer := incidents[id := next], history + [(id, commands)];
    assert longer[|history|] == (id, commands);
    forall other | other in after && Applied(after[other])
      ensures exists k :: 0 <= k < |longer| && longer[k].0 == other
    {
      if other != id {
        var k :| 0 <= k < |history| && history[k].0 == other;
        assert longer[k] == history[k];
      }
    }
  }

  lemma SoundNew(texts: Texts, box: Sandbox, incidents: map<string, Incident>, recorded: set<string>, history: History,
                 id: string, proposal: Option<Proposal>)
    requires Sound(texts, box, incidents, recorded, history) && id !in recorded
    requires proposal.Some? ==> Genuine(texts, box, proposal.value)
    ensures id !in incidents && Sound(texts, box, incidents[id := Waiting(proposal)], recorded + {id}, history)
  {
    hide Genuine, Allowed;
  }

  lemma SoundAt(texts: Texts, box: Sandbox, incidents: map<string, Incident>, recorded: set<string>, history: History,
                id: string)
    requires Sound(texts, box, incidents, recorded, history) && id in incidents
    ensures id in recorded && Honest(texts, box, incidents[id])
  {
  }

  lemma SoundIdle(texts: Texts, box: Sandbox, incidents: map<string, Incident>, recorded: set<string>, history: History,
                  id: string, next: Incident)
    requires Sound(texts, box, incidents, recorded, history) && id in incidents && !incidents[id].Done?
    requires !Applied(next) && Honest(texts, box, next)
    ensures Sound(texts, box, incidents[id := next], recorded, history)
  {
    hide Exact, Honest;
    ExactIdle(box, incidents, history, id, next);
  }

  lemma SoundRan(texts: Texts, box: Sandbox, incidents: map<string, Incident>, recorded: set<string>, history: History,
                 id: string, next: Incident, commands: seq<string>)
    requires Sound(texts, box, incidents, recorded, history) && id in incidents && !incidents[id].Done?
    requires Applied(next) && Honest(texts, box, next)
    requires Allowed(box, next.proposal.value.action, next.proposal.value.args, commands)
    ensures Sound(texts, box, incidents[id := next], recorded, history + [(id, commands)])
  {
    hide Exact, Honest, Allowed;
    ExactRan(box, incidents, history, id, next, commands);
  }

  class Dispatcher {
    const texts: Texts
    const runner: CommandRunner
    const episodes: Memory.EpisodeStore
    var incidents: map<string, Incident>
    var records: map<string, string>
    ghost var history: History

    ghost predicate Valid()
      reads this, runner
    {
      Sound(texts, runner.box, incidents, records.Keys, history) && runner.calls == Received(history)
    }

    constructor (texts: Texts, box: Sandbox, codec: Memory.Codec)
      ensures Valid() && fresh(runner) && fresh(episodes) && incidents == map[] && records == map[]
      ensures this.texts == texts && runner.box == box && runner.calls == []
    {
      this.texts := texts;
      runner := new CommandRunner(box);
      episodes := new Memory.EpisodeStore(codec);
      incidents, records, history := map[], map[], [];
    }

    /** A new alarm runs to the approval interrupt; an incident with a record is refused. */
    method Handle(id: string, selection: Option<(string, Args, string)>) returns (r: Result)
      requires Valid()
      modifies this
      ensures Valid()
      ensures r.Refused? <==> id in old(records)
      ensures r.Refused? ==> incidents == old(incidents) && records == old(records)
      ensures r.Finished? ==> id !in old(incidents) && incidents == old(incidents)[id := Waiting(Proposed(selection))]
      ensures r.Finished? ==>
                records == old(records)[id := texts.record(id, Proposed(selection), Pending, [])]
    {
      if id in records {
        return Refused;
      }
      hide Genuine, Exact, Sound, Allowed;
      var proposal := Proposed(selection);
      SoundNew(texts, runner.box, incidents, records.Keys, history, id, proposal);
      incidents := incidents[id := Waiting(proposal)];
      ghost var recorded := records.Keys;
      records := records[id := texts.record(id, proposal, Pending, [])];
      assert records.Keys == recorded + {id};
      r := Finished([]);
    }

    /** A selection the executor cannot render yields no proposal. */
    function Proposed(selection: Option<(string, Args, string)>): (p: Option<Proposal>)
      ensures p.Some? <==>
              selection.Some? && exists commands :: Allowed(runner.box, selection.value.0, selection.value.1, commands)
      ensures p.Some? ==> Genuine(texts, runner.box, p.value)
      ensures p.Some? ==> (p.value.action, p.value.args, p.value.justification) == selection.value
    {
      if selection.None? then None
      else
        var (action, args, justification) := selection.value;
        var commands := DryRun(runner.box, action, args);
        DryRunIsGenuine(runner.box, action, args);
        if commands.None? then None
        else Some(Proposal(action, args, justification, commands.value, texts.hash(action, args, justification)))
    }

    /** Anyone may rewrite a record. */
    method EditRecord(id: string, text: string)
      requires Valid()
      modifies this`records
      ensures Valid() && records == old(records)[id := text]
    {
      records := records[id := text];
    }

    /** The decision a resumed run acts on: a failed execute step may have left one behind. */
    ghost function Resumed(i: Incident, decision: string, execute: bool, keeps: bool): Incident {
      if i.Decided? && keeps then i else Decided(i.proposal, decision, execute)
    }

    /** The execute step goes through: there is something to execute, and the record still carries the
        proposal's hash. */
    ghost predicate Passes(i: Incident, record: string)
      requires i.Decided?
    {
      if i.proposal.None? then i.decision == "reject" else texts.readHash(record) == Some(i.proposal.value.hash)
    }

    /** The step that runs the commands. */
    ghost predicate Runs(i: Incident, record: string)
      requires i.Decided?
    {
      Passes(i, record) && i.proposal.Some? && i.decision != "reject" && i.execute
    }

    ghost function ApprovalOf(i: Incident): Approval
      requires i.Decided?
    {
      if i.decision == "reject" then Rejected else if i.execute then ApprovedExecuted else ApprovedDryRun
    }

    /** The log: the commands of the dry run, and again when they are executed. */
    ghost predicate IsLog(log: seq<string>, i: Incident)
      requires i.Decided?
    {
      if i.decision == "reject" then log == ["rejected: no commands applied"]
      else i.proposal.Some? && exists commands ::
             Allowed(runner.box, i.proposal.value.action, i.proposal.value.args, commands)
             && IsLogOf(log, commands, i.execute)
    }

    /** What the execute step leaves of the incident: a failed one may keep its decision or be rolled back. */
    ghost predicate Leaves(i: Incident, finished: bool, rollsBack: bool, next: Incident)
      requires i.Decided?
    {
      next == if finished then Done(i.proposal, i.decision, i.execute) else if rollsBack then Waiting(i.proposal) else i
    }

    method RunApproval(id: string, decision: string, execute: bool, keeps: bool, rollsBack: bool) returns (r: Result)
      requires Valid()
      modifies this, runner, episodes
      ensures Valid()
      ensures r.Finished? <==>
                && (decision == "approve" || decision == "reject") && id in old(incidents) && !old(incidents)[id].Done?
                && Passes(Resumed(old(incidents)[id], decision, execute, keeps), old(records)[id])
      ensures r.Refused? ==>
                runner.calls == old(runner.calls) && records == old(records) && episodes.file == old(episodes.file)
      ensures if (decision == "approve" || decision == "reject") && id in old(incidents) && !old(incidents)[id].Done?
              then
                var i := Resumed(old(incidents)[id], decision, execute, keeps);
                && id in incidents && Leaves(i, r.Finished?, rollsBack, incidents[id])
                && incidents == old(incidents)[id := incidents[id]]
              else incidents == old(incidents)
      ensures r.Finished? ==>
                var i := Resumed(old(incidents)[id], decision, execute, keeps);
                && old(runner.calls) <= runner.calls
                && (if Runs(i, old(records)[id])
                    then Allowed(runner.box, i.proposal.value.action, i.proposal.value.args,
                                 runner.calls[|old(runner.calls)|..])
                    else runner.calls == old(runner.calls))
                && IsLog(r.log, i) && records == old(records)[id := texts.record(id, i.proposal, ApprovalOf(i), r.log)]
                && episodes.file ==
                     episodes.Extended(old(episodes.file), texts.episode(id, i.proposal, ApprovalOf(i)))
    {
      if (decision != "approve" && decision != "reject") || id !in incidents || incidents[id].Done? {
        return Refused;
      }
      hide Genuine, Exact, Allowed, Received, Sound, Passes, Runs, IsLog;
      SoundAt(texts, runner.box, incidents, records.Keys, history, id);
      var i := incidents[id];
      if !(i.Decided? && keeps) {
        i := Decided(i.proposal, decision, execute);
      }
      r := Resume(id, i, rollsBack);
    }

    /** Runs the execute step on a decided incident and stores what it leaves. */
    method Resume(id: string, i: Incident, rollsBack: bool) returns (r: Result)
      requires Valid() && id in incidents && id in records && !incidents[id].Done?
      requires i.Decided? && Honest(texts, runner.box, i)
      modifies this, runner, episodes
      ensures Valid()
      ensures r.Finished? <==> Passes(i, old(records)[id])
      ensures id in incidents && Leaves(i, r.Finished?, rollsBack, incidents[id])
      ensures incidents == old(incidents)[id := incidents[id]]
      ensures r.Refused? ==>
                runner.calls == old(runner.calls) && records == old(records) && episodes.file == old(episodes.file)
      ensures old(runner.calls) <= runner.calls
      ensures if Runs(i, old(records)[id])
              then Allowed(runner.box, i.proposal.value.action, i.proposal.value.args,
                           runner.calls[|old(runner.calls)|..])
              else runner.calls == old(runner.calls)
      ensures r.Finished? ==>
                && IsLog(r.log, i) && records == old(records)[id := texts.record(id, i.proposal, ApprovalOf(i), r.log)]
                && episodes.file ==
                     episodes.Extended(old(episodes.file), texts.episode(id, i.proposal, ApprovalOf(i)))
    {
      hide Genuine, Exact, Allowed, Received, Sound, IsLog;
      ghost var ran := Runs(i, records[id]);
      ghost var recorded := records.Keys;
      r := Execute(id, i);
      assert records.Keys == recorded;
      var next := if r.Finished? then Done(i.proposal, i.decision, i.execute)
                  else if rollsBack then Waiting(i.proposal) else i;
      if ran {
        ghost var commands := runner.calls[|old(runner.calls)|..];
        SoundRan(texts, runner.box, incidents, records.Keys, history, id, next, commands);
        ReceivedSnoc(history, id, commands);
        history := history + [(id, commands)];
      } else {
        SoundIdle(texts, runner.box, incidents, records.Keys, history, id, next);
      }
      incidents := incidents[id := next];
    }

    method Execute(id: string, i: Incident) returns (r: Result)
      requires i.Decided? && id in records && (i.proposal.Some? ==> Genuine(texts, runner.box, i.proposal.value))
      modifies this`records, runner, episodes
      ensures r.Finished? <==> Passes(i, old(records)[id])
      ensures r.Refused? ==>
                runner.calls == old(runner.calls) && records == old(records) && episodes.file == old(episodes.file)
      ensures old(runner.calls) <= runner.calls
      ensures if Runs(i, old(records)[id])
              then Allowed(runner.box, i.proposal.value.action, i.proposal.value.args,
                           runner.calls[|old(runner.calls)|..])
              else runner.calls == old(runner.calls)
      ensures r.Finished? ==>
                && IsLog(r.log, i) && records == old(records)[id := texts.record(id, i.proposal, ApprovalOf(i), r.log)]
                && episodes.file ==
                     episodes.Extended(old(episodes.file), texts.episode(id, i.proposal, ApprovalOf(i)))
    {
      hide Allowed, Genuine, IsLogOf;
      if i.proposal.None? && i.decision != "reject" {
        return Refused;
      }
      if i.proposal.Some? && texts.readHash(records[id]) != Some(i.proposal.value.hash) {
        return Refused;
      }
      if i.decision == "reject" {
        var log := ["rejected: no commands applied"];
        records := records[id := texts.record(id, i.proposal, Rejected, log)];
        episodes.Add(texts.episode(id, i.proposal, Rejected));
        return Finished(log);
      }
      var p := i.proposal.value;
      var commands := Filtered(p.commands);
      FilteredIsAllowed(texts, runner.box, p);
      var log := if commands == [] then ["dry-run: " + OBSERVE_ONLY_NOTE] else Prefixed("dry-run: ", commands);
      var approval := ApprovedDryRun;
      if i.execute {
        var ok := runner.Apply(p, commands);
        assert ok; // the commands always match the checkpointed proposal
        log := log + Prefixed("executed: ", commands);
        approval := ApprovedExecuted;
      }
      LogIs(log, commands, i.execute);
      records := records[id := texts.record(id, i.proposal, approval, log)];
      episodes.Add(texts.episode(id, i.proposal, approval));
      r := Finished(log);
    }
  }

  /** One line for each command of the dry run, or one saying that there is none, then one for each executed. */
  ghost predicate IsLogOf(log: seq<string>, commands: seq<string>, execute: bool) {
    var n := if commands == [] then 1 else |commands|;
    && |log| == n + (if execute then |commands| else 0)
    && (commands == [] ==> log[0] == "dry-run: observe only \U{2014} no commands")
    && forall k :: 0 <= k < |commands| ==>
         log[k] == "dry-run: " + commands[k] && (execute ==> log[n + k] == "executed: " + commands[k])
  }

  lemma LogIs(log: seq<string>, commands: seq<string>, execute: bool)
    requires log == (if commands == [] then ["dry-run: " + OBSERVE_ONLY_NOTE] else Prefixed("dry-run: ", commands))
                    + if execute then Prefixed("executed: ", commands) else []
    ensures IsLogOf(log, commands, execute)
  {
  }

  /** The dry run is genuine. */
  lemma DryRunIsGenuine(box: Sandbox, action: string, args: Args)
    ensures DryRun(box, action, args).Some? <==> exists commands :: Allowed(box, action, args, commands)
    ensures DryRun(box, action, args).Some? ==>
              var commands := DryRun(box, action, args).value;
              && commands != []
              && (Allowed(box, action, args, commands)
                  || (Allowed(box, action, args, []) && commands == ["observe only \U{2014} no commands"]))
  {
    hide Allowed, Render;
    forall commands
      ensures Render(box, action, args) == Some(commands) <==> Allowed(box, action, args, commands)
    {
      RenderIsAllowed(box, action, args, commands);
    }
    if Render(box, action, args).Some? {
      assert Allowed(box, action, args, Render(box, action, args).value);
    }
  }

  /** Filtered, the listed commands are the ones the proposal stands for. */
  lemma FilteredIsAllowed(texts: Texts, box: Sandbox, p: Proposal)
    requires Genuine(texts, box, p)
    ensures Allowed(box, p.action, p.args, Filtered(p.commands))
  {
    if Allowed(box, p.action, p.args, p.commands) {
      NoNote(box, p.action, p.args, p.commands);
    } else {
      FilteredOne(OBSERVE_ONLY_NOTE);
    }
  }

  /** No template renders the note. */
  lemma NoNote(box: Sandbox, action: string, args: Args, commands: seq<string>)
    requires Allowed(box, action, args, commands)
    ensures Filtered(commands) == commands
  {
    if commands != [] {
      assert |commands| == 1 && commands[0][0] in "dgb" && OBSERVE_ONLY_NOTE[0] == 'o';
      FilteredOne(commands[0]);
    }
  }

  function Prefixed(prefix: string, commands: seq<string>): seq<string> {
    seq(|commands|, k requires 0 <= k < |commands| => prefix + commands[k])
  }
}
