/** Closing an executed incident (dispatch/dispatch/cli.py:125-168): the Outcome goes into the store,
    a runbook draft may be staged, and only then is the record written. */
module Closing {
  import opened Common
  import opened Strings
  import opened Memory
  import Gate

  const MARK := "## Outcome"

  /** The operator's verdict. */
  datatype Verdict = Verdict(outcome: Outcome, evidence: Option<string>)

  /** When an attempt runs: today's date goes into a draft, the time into the record. */
  datatype Moment = Moment(date: string, time: string)

  /** The texts and lookups a close depends on, which stay the same between attempts. */
  datatype Env = Env(
    codec: Codec,
    covered: Episode -> bool,
    check: Episode -> string,
    draftName: Episode -> string,
    draftText: (Episode, string) -> string,
    verdictText: (Verdict, string, string) -> string)

  /** The files of one incident's close: the store, the staged drafts and the record. */
  datatype Desk = Desk(store: Option<string>, drafts: map<string, string>, record: Option<string>)

  /** Where an attempt breaks off with an error of its own. */
  datatype Fault = NoFault | BeforeStore | AfterStore | DuringDraft(written: string) | BeforeRecord

  datatype Result = Refused | Closed

  /** part in text */
  ghost predicate Contains(text: string, part: string) {
    exists before, after :: text == before + part + after
  }

  /** What is added to the record. */
  ghost function Section(env: Env, v: Verdict, check: string, time: string): string {
    "\n## Outcome\n" + env.verdictText(v, check, time)
  }

  /** The last Episode of the incident. */
  ghost function LastMatch(c: Codec, lines: seq<string>, id: string): Option<Episode> {
    if lines == [] then None
    else if c.Matches(lines[|lines| - 1], id) then c.Read(lines[|lines| - 1])
    else LastMatch(c, lines[..|lines| - 1], id)
  }

  /** A resolved remediation that no committed runbook covers is drafted. */
  ghost predicate Drafts(env: Env, v: Verdict, e: Episode) {
    v.outcome == Resolved && e.action !in {None, Some(""), Some("observe_only")} && !env.covered(e)
  }

  /** Only approved and executed incidents can be closed. */
  ghost predicate Closable(checkpoint: Option<Gate.Incident>) {
    checkpoint.Some? && checkpoint.value.Done? && checkpoint.value.decision == "approve" && checkpoint.value.execute
  }

  ghost predicate Open(desk: Desk) {
    desk.record.Some? && !Contains(desk.record.value, "## Outcome")
  }

  /** One attempt: the desk it leaves and whether it closed. */
  ghost function Attempt(env: Env, desk: Desk, id: string, v: Verdict, moment: Moment, fault: Fault): (Desk, Result) {
    if !Open(desk) || fault.BeforeStore? || desk.store.None? then (desk, Refused)
    else
      var e := LastMatch(env.codec, Split(desk.store.value, '\n'), id);
      if e.None? then (desk, Refused)
      else
        var closed := Memory.Closed(e.value, Some(v.outcome), v.evidence);
        var stored := desk.(store := Some(env.codec.SetText(desk.store.value, id, Some(v.outcome), v.evidence)));
        if fault.AfterStore? then (stored, Refused)
        else
          var drafts := Drafts(env, v, closed);
          if drafts && fault.DuringDraft? then
            (stored.(drafts := desk.drafts[env.draftName(closed) := fault.written]), Refused)
          else
            var drafted :=
              if drafts then stored.(drafts := desk.drafts[env.draftName(closed) := env.draftText(closed, moment.date)])
              else stored;
            if !fault.NoFault? then (drafted, Refused)
            else
              (drafted.(record := Some(desk.record.value + Section(env, v, env.check(closed), moment.time))), Closed)
  }

  /** Whether part occurs in text. */
  method Occurs(text: string, part: string) returns (found: bool)
    ensures found <==> Contains(text, part)
  {
    found := exists i :: 0 <= i <= |text| && part <= text[i..];
    if found {
      var i :| 0 <= i <= |text| && part <= text[i..];
      assert text == text[..i] + part + text[i + |part|..];
    }
    if Contains(text, part) {
      var before, after :| text == before + part + after;
      assert part <= text[|before|..];
    }
  }

  lemma WhenDrafted(env: Env, v: Verdict, e: Episode)
    ensures Drafts(env, v, e) <==>
            v.outcome == Resolved && Truthy(e.action) && e.action != Some("observe_only") && !env.covered(e)
  {
  }

  class Closer {
    const env: Env
    const episodes: EpisodeStore
    var drafts: map<string, string>
    var record: Option<string>

    constructor (env: Env, episodes: EpisodeStore, record: Option<string>)
      requires episodes.codec == env.codec
      ensures this.env == env && this.episodes == episodes && drafts == map[] && this.record == record
      ensures Consistent()
    {
      this.env, this.episodes, this.record, drafts := env, episodes, record, map[];
    }

    ghost predicate Consistent() {
      episodes.codec == env.codec
    }

    ghost function View(): Desk
      reads this, episodes
    {
      Desk(episodes.file, drafts, record)
    }

    method Close(id: string, checkpoint: Option<Gate.Incident>, v: Verdict, moment: Moment, fault: Fault)
      returns (r: Result)
      requires Consistent()
      modifies this, episodes
      ensures (View(), r) == if Closable(checkpoint) then Attempt(env, old(View()), id, v, moment, fault)
                             else (old(View()), Refused)
    {
      hide Split, Codec.SetText, Contains, Section, LastMatch, Drafts, Truthy;
      if checkpoint.None? || !checkpoint.value.Done? || checkpoint.value.decision != "approve"
         || !checkpoint.value.execute {
        return Refused;
      }
      if record.None? || fault.BeforeStore? {
        return Refused;
      }
      var closed := Occurs(record.value, MARK);
      if closed {
        return Refused;
      }
      ghost var store := episodes.file;
      if store.Some? {
        LastMatchIsLast(env.codec, Split(store.value, '\n'), id);
      }
      var closing := episodes.SetOutcome(id, Some(v.outcome), v.evidence);
      if !closing.Updated? || fault.AfterStore? {
        return Refused;
      }
      var e := closing.episode;
      var check := env.check(e);
      assert Drafts(env, v, e) <==>
             v.outcome == Resolved && Truthy(e.action) && e.action != Some("observe_only") && !env.covered(e) by {
        WhenDrafted(env, v, e);
      }
      if v.outcome == Resolved && Truthy(e.action) && e.action != Some("observe_only") && !env.covered(e) {
        if fault.DuringDraft? {
          drafts := drafts[env.draftName(e) := fault.written];
          return Refused;
        }
        drafts := drafts[env.draftName(e) := env.draftText(e, moment.date)];
      }
      if !fault.NoFault? {
        return Refused;
      }
      AppendOutcome(v, check, moment.time);
      r := Closed;
    }

    method AppendOutcome(v: Verdict, check: string, time: string)
      requires record.Some?
      modifies this`record
      ensures record == Some(old(record).value + Section(env, v, check, time))
    {
      record := Some(record.value + "\n" + MARK + "\n" + env.verdictText(v, check, time));
      assert "\n" + MARK + "\n" == "\n## Outcome\n";
      assert record.value == old(record).value + (("\n" + MARK + "\n") + env.verdictText(v, check, time));
    }
  }

  lemma {:induction false} LastMatchIsLast(c: Codec, lines: seq<string>, id: string)
    ensures LastMatch(c, lines, id).Some? <==> c.Holds(lines, id)
    ensures forall k :: IsLastMatch(c, lines, id, k) ==> LastMatch(c, lines, id) == c.Read(lines[k])
  {
    hide Codec.Matches, Codec.Read;
    if lines != [] {
      var front, n := lines[..|lines| - 1], |lines| - 1;
      LastMatchIsLast(c, front, id);
      if c.Matches(lines[n], id) {
        MatchesReads(c, lines[n], id);
      } else {
        assert c.Holds(lines, id) <==> c.Holds(front, id) by {
          if k :| 0 <= k < |lines| && c.Matches(lines[k], id) {
            assert front[k] == lines[k];
          }
          if k :| 0 <= k < |front| && c.Matches(front[k], id) {
            assert front[k] == lines[k];
          }
        }
        forall k | IsLastMatch(c, lines, id, k)
          ensures IsLastMatch(c, front, id, k) && front[k] == lines[k]
        {
        }
      }
    }
  }

  lemma MatchesReads(c: Codec, line: string, id: string)
    requires c.Matches(line, id)
    ensures c.Read(line).Some?
  {
  }

  // ----- Retrying -----

  /** Rewritten lines have the closed Episode as their last match. */
  lemma {:induction false} LastMatchRewritten(c: Codec, lines: seq<string>, id: string,
                                          o: Option<Outcome>, ev: Option<string>)
    requires c.Ok()
    ensures var e := LastMatch(c, lines, id);
            LastMatch(c, c.RewriteAll(lines, id, o, ev), id) ==
            if e.None? then None else Some(Memory.Closed(e.value, o, ev))
  {
    if lines != [] {
      var front, last := lines[..|lines| - 1], lines[|lines| - 1];
      LastMatchRewritten(c, front, id, o, ev);
      var rewritten := c.RewriteAll(lines, id, o, ev);
      assert rewritten[..|rewritten| - 1] == c.RewriteAll(front, id, o, ev);
      assert rewritten[|rewritten| - 1] == c.Rewritten(last, id, o, ev);
    }
  }

  /** The incident's Episode, as an attempt with this verdict closes it. */
  ghost function ClosedEpisode(env: Env, desk: Desk, id: string, v: Verdict): Option<Episode> {
    if desk.store.None? then None
    else
      var e := LastMatch(env.codec, Split(desk.store.value, '\n'), id);
      if e.None? then None else Some(Memory.Closed(e.value, Some(v.outcome), v.evidence))
  }

  /** d is what failed attempts can have made of desk: the same record, the store as it was or closed, and
      perhaps something in place of the draft. */
  ghost predicate Tried(env: Env, desk: Desk, id: string, v: Verdict, d: Desk) {
    || d == desk
    || (ClosedEpisode(env, desk, id, v).Some? && d.record == desk.record
        && d.store == Some(env.codec.SetText(desk.store.value, id, Some(v.outcome), v.evidence))
        && var e := ClosedEpisode(env, desk, id, v).value;
           (d.drafts == desk.drafts || (Drafts(env, v, e) && OnlyAt(desk.drafts, d.drafts, env.draftName(e)))))
  }

  ghost predicate OnlyAt(a: map<string, string>, b: map<string, string>, name: string) {
    name in b && b == a[name := b[name]]
  }

  lemma TriedStore(env: Env, desk: Desk, id: string, v: Verdict, d: Desk)
    requires env.codec.Ok() && Tried(env, desk, id, v, d)
    ensures ClosedEpisode(env, d, id, v) == ClosedEpisode(env, desk, id, v)
    ensures ClosedEpisode(env, desk, id, v).Some? ==>
              env.codec.SetText(d.store.value, id, Some(v.outcome), v.evidence)
              == env.codec.SetText(desk.store.value, id, Some(v.outcome), v.evidence)
  {
    hide Split, Codec.SetText, Codec.Load, Codec.RewriteAll;
    if d != desk {
      var o, ev := Some(v.outcome), v.evidence;
      SetTwice(env.codec, desk.store.value, id, o, ev);
      SetRefines(env.codec, desk.store.value, id, o, ev);
      LastMatchRewritten(env.codec, Split(desk.store.value, '\n'), id, o, ev);
    }
  }

  lemma FailedIsTried(env: Env, desk: Desk, id: string, v: Verdict, d: Desk, moment: Moment, fault: Fault)
    requires env.codec.Ok() && Tried(env, desk, id, v, d) && Attempt(env, d, id, v, moment, fault).1 == Refused
    ensures Tried(env, desk, id, v, Attempt(env, d, id, v, moment, fault).0)
  {
    hide Split, Codec.SetText, LastMatch, Contains;
    TriedStore(env, desk, id, v, d);
  }

  lemma SuccessFromTried(env: Env, desk: Desk, id: string, v: Verdict, d: Desk, moment: Moment)
    requires env.codec.Ok() && Tried(env, desk, id, v, d)
    ensures Attempt(env, d, id, v, moment, NoFault).1 == Attempt(env, desk, id, v, moment, NoFault).1
    ensures Attempt(env, d, id, v, moment, NoFault).1 == Closed ==>
              Attempt(env, d, id, v, moment, NoFault).0 == Attempt(env, desk, id, v, moment, NoFault).0
  {
    hide Split, Codec.SetText, LastMatch, Contains, Section;
    TriedStore(env, desk, id, v, d);
  }

  type Tries = seq<(Moment, Fault)>

  /** The desk after a sequence of attempts with the same arguments. */
  ghost function AfterTries(env: Env, desk: Desk, id: string, v: Verdict, tries: Tries): Desk {
    if tries == [] then desk
    else
      var (moment, fault) := tries[|tries| - 1];
      Attempt(env, AfterTries(env, desk, id, v, tries[..|tries| - 1]), id, v, moment, fault).0
  }

  ghost predicate AllFail(env: Env, desk: Desk, id: string, v: Verdict, tries: Tries) {
    forall k :: 0 <= k < |tries| ==>
      Attempt(env, AfterTries(env, desk, id, v, tries[..k]), id, v, tries[k].0, tries[k].1).1 == Refused
  }

  lemma {:induction false} TriesLeaveTried(env: Env, desk: Desk, id: string, v: Verdict, tries: Tries)
    requires env.codec.Ok() && AllFail(env, desk, id, v, tries)
    ensures Tried(env, desk, id, v, AfterTries(env, desk, id, v, tries))
  {
    hide Attempt, Tried;
    if tries == [] {
      NotTried(env, desk, id, v);
    } else {
      var front := tries[..|tries| - 1];
      var (moment, fault) := tries[|tries| - 1];
      assert AllFail(env, desk, id, v, front) by {
        assert forall k :: 0 <= k < |front| ==> front[..k] == tries[..k] && front[k] == tries[k];
      }
      TriesLeaveTried(env, desk, id, v, front);
      FailedIsTried(env, desk, id, v, AfterTries(env, desk, id, v, front), moment, fault);
    }
  }

  lemma NotTried(env: Env, desk: Desk, id: string, v: Verdict)
    ensures Tried(env, desk, id, v, desk)
  {
  }

  /** Any number of failed attempts, then one that goes through: the store, the drafts and the record are as
      after that one alone, and it goes through exactly when it would have at once. */
  lemma CloseIsRetryable(env: Env, desk: Desk, id: string, v: Verdict, tries: Tries, moment: Moment)
    requires env.codec.Ok() && AllFail(env, desk, id, v, tries)
    ensures var retried := Attempt(env, AfterTries(env, desk, id, v, tries), id, v, moment, NoFault);
            var atOnce := Attempt(env, desk, id, v, moment, NoFault);
            retried.1 == atOnce.1 && (retried.1 == Closed ==> retried.0 == atOnce.0)
  {
    hide Attempt, Tried;
    TriesLeaveTried(env, desk, id, v, tries);
    SuccessFromTried(env, desk, id, v, AfterTries(env, desk, id, v, tries), moment);
  }

  lemma SectionIsMarked(record: string, env: Env, v: Verdict, check: string, time: string)
    ensures Contains(record + Section(env, v, check, time), "## Outcome")
  {
    assert record + Section(env, v, check, time)
           == (record + "\n") + "## Outcome" + ("\n" + env.verdictText(v, check, time));
  }

  /** A closed incident stays closed: every further attempt is refused and changes nothing. */
  lemma SecondCloseIsRefused(env: Env, desk: Desk, id: string, v: Verdict, moment: Moment, fault: Fault,
                             v2: Verdict, moment2: Moment, fault2: Fault)
    requires Attempt(env, desk, id, v, moment, fault).1 == Closed
    ensures var closed := Attempt(env, desk, id, v, moment, fault).0;
            Attempt(env, closed, id, v2, moment2, fault2) == (closed, Refused)
  {
    hide Split, Codec.SetText, LastMatch, Contains, Section;
    SectionIsMarked(desk.record.value, env, v, env.check(ClosedEpisode(env, desk, id, v).value), moment.time);
  }
}
