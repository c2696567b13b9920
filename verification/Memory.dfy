/** The Episode store: a file of one JSON record a line, appended to, and rewritten in place
    only to set an Outcome (dispatch/dispatch/memory.py:58-111). */
module Memory {
  import opened Common
  import opened Strings

  datatype Outcome = Resolved | Unresolved

  /** An Episode; the fields no operation here touches are one value. */
  datatype Episode =
    Episode(incidentId: string, action: Option<string>, rest: string, outcome: Option<Outcome>,
            evidence: Option<string>)

  function Closed(e: Episode, outcome: Option<Outcome>, evidence: Option<string>): Episode {
    e.(outcome := outcome, evidence := evidence)
  }

  /** JSON: one non-empty line for an Episode, and parsing inverts serialising. */
  datatype Codec = Codec(dump: Episode -> string, parse: string -> Option<Episode>) {
    ghost predicate Ok() {
      forall e :: '\n' !in dump(e) && dump(e) != "" && parse(dump(e)) == Some(e)
    }

    /** The Episode on a line, unless the line is empty or corrupt. */
    function Read(line: string): Option<Episode> {
      if line == "" then None else parse(line)
    }

    /** The Episodes on the lines. */
    ghost function Episodes(lines: seq<string>): seq<Episode> {
      if lines == [] then []
      else
        var e := Read(lines[|lines| - 1]);
        Episodes(lines[..|lines| - 1]) + if e.Some? then [e.value] else []
    }

    ghost function Load(text: string): seq<Episode> {
      Episodes(Split(text, '\n'))
    }

    predicate Matches(line: string, id: string) {
      var e := Read(line);
      e.Some? && e.value.incidentId == id
    }

    /** The line after closing id: rewritten if it holds an Episode of that incident. */
    function Rewritten(line: string, id: string, outcome: Option<Outcome>, evidence: Option<string>): string {
      if Matches(line, id) then dump(Closed(Read(line).value, outcome, evidence)) else line
    }

    ghost function RewriteAll(lines: seq<string>, id: string, outcome: Option<Outcome>, evidence: Option<string>)
      : (r: seq<string>)
      ensures |r| == |lines| && forall k :: 0 <= k < |lines| ==> r[k] == Rewritten(lines[k], id, outcome, evidence)
    {
      seq(|lines|, k requires 0 <= k < |lines| => Rewritten(lines[k], id, outcome, evidence))
    }

    ghost predicate Holds(lines: seq<string>, id: string) {
      exists k :: 0 <= k < |lines| && Matches(lines[k], id)
    }

    ghost function SetText(text: string, id: string, outcome: Option<Outcome>, evidence: Option<string>): string {
      Join(RewriteAll(Split(text, '\n'), id, outcome, evidence), "\n")
    }
  }

  ghost predicate IsLastMatch(c: Codec, lines: seq<string>, id: string, k: int) {
    0 <= k < |lines| && c.Matches(lines[k], id) && forall l :: k < l < |lines| ==> !c.Matches(lines[l], id)
  }

  datatype Closing = Missing | Unknown | Updated(episode: Episode)

  class EpisodeStore {
    const codec: Codec
    /** The file's text, if the file exists. */
    var file: Option<string>

    constructor (codec: Codec)
      ensures this.codec == codec && file == None
    {
      this.codec, file := codec, None;
    }

    /** The file with one more line. */
    ghost function Extended(was: Option<string>, e: Episode): Option<string> {
      Some((if was.Some? then was.value else "") + codec.dump(e) + "\n")
    }

    method Add(e: Episode)
      modifies this
      ensures file == Extended(old(file), e)
    {
      file := Some((if file.Some? then file.value else "") + codec.dump(e) + "\n");
    }

    method Load() returns (episodes: seq<Episode>)
      ensures episodes == if file.None? then [] else codec.Load(file.value)
    {
      if file.None? {
        return [];
      }
      var lines := Split(file.value, '\n');
      episodes := [];
      for i := 0 to |lines|
        invariant episodes == codec.Episodes(lines[..i])
      {
        TakeSnoc(lines, i);
        if lines[i] == "" {
          continue;
        }
        var e := codec.parse(lines[i]);
        if e.Some? {
          episodes := episodes + [e.value];
        }
      }
      assert lines[..|lines|] == lines;
    }

    /** A missing file and an incident the store does not hold raise; neither changes the file. */
    method SetOutcome(id: string, outcome: Option<Outcome>, evidence: Option<string>) returns (r: Closing)
      modifies this
      ensures r.Missing? <==> old(file).None?
      ensures r.Unknown? ==> !codec.Holds(Split(old(file).value, '\n'), id)
      ensures !r.Updated? ==> file == old(file)
      ensures r.Updated? ==> file == Some(codec.SetText(old(file).value, id, outcome, evidence))
      ensures r.Updated? ==> exists k :: IsLastMatch(codec, Split(old(file).value, '\n'), id, k)
                               && r.episode == Closed(codec.Read(Split(old(file).value, '\n')[k]).value,
                                                    outcome, evidence)
    {
      if file.None? {
        return Missing;
      }
      ghost var was := Split(file.value, '\n');
      var lines := Split(file.value, '\n');
      var updated: Option<Episode> := None;
      ghost var last := -1;
      for i := 0 to |lines|
        invariant |lines| == |was|
        invariant forall k :: 0 <= k < i ==> lines[k] == codec.Rewritten(was[k], id, outcome, evidence)
        invariant forall k :: i <= k < |lines| ==> lines[k] == was[k]
        invariant updated.None? ==> forall k :: 0 <= k < i ==> !codec.Matches(was[k], id)
        invariant updated.Some? ==>
                    && 0 <= last < i && codec.Matches(was[last], id)
                    && (forall l :: last < l < i ==> !codec.Matches(was[l], id))
                    && updated.value == Closed(codec.Read(was[last]).value, outcome, evidence)
      {
        if lines[i] == "" {
          continue;
        }
        var e := codec.parse(lines[i]);
        if e.Some? && e.value.incidentId == id {
          var closed := Closed(e.value, outcome, evidence);
          lines := lines[i := codec.dump(closed)];
          updated := Some(closed);
          last := i;
        }
      }
      if updated.None? {
        return Unknown;
      }
      assert lines == codec.RewriteAll(was, id, outcome, evidence);
      file := Some(Join(lines, "\n"));
      assert IsLastMatch(codec, was, id, last);
      r := Updated(updated.value);
    }
  }

  // ----- The file refines a list of Episodes -----

  ghost predicate Terminated(text: string) {
    text == "" || text[|text| - 1] == '\n'
  }

  ghost function CloseAll(es: seq<Episode>, id: string, outcome: Option<Outcome>, evidence: Option<string>)
    : (r: seq<Episode>)
    ensures |r| == |es|
    ensures forall k :: 0 <= k < |es| ==>
              r[k] == if es[k].incidentId == id then Closed(es[k], outcome, evidence) else es[k]
  {
    seq(|es|, k requires 0 <= k < |es| =>
      if es[k].incidentId == id then Closed(es[k], outcome, evidence) else es[k])
  }

  /** The corrupt lines, in order. */
  ghost function Corrupt(c: Codec, lines: seq<string>): seq<string> {
    if lines == [] then []
    else
      var line := lines[|lines| - 1];
      Corrupt(c, lines[..|lines| - 1]) + if line != "" && c.parse(line).None? then [line] else []
  }

  lemma LinesSnoc(c: Codec, lines: seq<string>, line: string)
    ensures c.Episodes(lines + [line]) == c.Episodes(lines) + if c.Read(line).Some? then [c.Read(line).value] else []
    ensures Corrupt(c, lines + [line]) == Corrupt(c, lines) + if line != "" && c.parse(line).None? then [line] else []
  {
    assert (lines + [line])[..|lines|] == lines;
  }

  lemma TerminatedMeans(text: string)
    ensures Terminated(text) <==> Split(text, '\n')[|Split(text, '\n')| - 1] == ""
  {
    if text != "" {
      SplitSnoc(text[..|text| - 1], text[|text| - 1], '\n');
      assert text == text[..|text| - 1] + [text[|text| - 1]];
    }
  }

  /** Adding to a terminated file adds one line. */
  lemma AddRefines(c: Codec, text: string, e: Episode)
    requires c.Ok() && Terminated(text)
    ensures var added := text + c.dump(e) + "\n";
            var lines := Split(text, '\n');
            && Split(added, '\n') == lines[..|lines| - 1] + [c.dump(e), ""] && Terminated(added)
            && c.Load(added) == c.Load(text) + [e]
            && Corrupt(c, Split(added, '\n')) == Corrupt(c, lines)
  {
    var lines := Split(text, '\n');
    var front := lines[..|lines| - 1];
    TerminatedMeans(text);
    assert lines == front + [""];
    SplitExtends(text, c.dump(e), '\n');
    assert "" + c.dump(e) == c.dump(e);
    SplitSnoc(text + c.dump(e), '\n', '\n');
    assert front + [c.dump(e)] + [""] == front + [c.dump(e), ""];
    LinesSnoc(c, front, "");
    LinesSnoc(c, front, c.dump(e));
    LinesSnoc(c, front + [c.dump(e)], "");
  }

  lemma {:induction false} RewriteReads(c: Codec, lines: seq<string>, id: string,
                                      o: Option<Outcome>, ev: Option<string>)
    requires c.Ok()
    ensures c.Episodes(c.RewriteAll(lines, id, o, ev)) == CloseAll(c.Episodes(lines), id, o, ev)
    ensures Corrupt(c, c.RewriteAll(lines, id, o, ev)) == Corrupt(c, lines)
  {
    hide Codec.Ok, Codec.Rewritten, Codec.Read, Codec.Matches;
    if lines != [] {
      var front, line := lines[..|lines| - 1], lines[|lines| - 1];
      RewriteReads(c, front, id, o, ev);
      var rest, last := c.RewriteAll(front, id, o, ev), c.Rewritten(line, id, o, ev);
      assert c.RewriteAll(lines, id, o, ev) == rest + [last];
      LinesSnoc(c, rest, last);
      RewriteRead(c, line, id, o, ev);
    }
  }

  lemma RewriteRead(c: Codec, line: string, id: string, o: Option<Outcome>, ev: Option<string>)
    requires c.Ok()
    ensures var last := c.Rewritten(line, id, o, ev);
            && c.Read(last) == (if c.Read(line).None? then None
                                else if c.Read(line).value.incidentId == id then Some(Closed(c.Read(line).value, o, ev))
                                else c.Read(line))
            && (last != "" && c.parse(last).None? <==> line != "" && c.parse(line).None?)
            && (line == "" || c.parse(line).None? ==> last == line)
  {
  }

  /** Setting an outcome closes every Episode of the incident and touches no other line. */
  lemma SetRefines(c: Codec, text: string, id: string, o: Option<Outcome>, ev: Option<string>)
    requires c.Ok()
    ensures var set_ := c.SetText(text, id, o, ev);
            && Split(set_, '\n') == c.RewriteAll(Split(text, '\n'), id, o, ev)
            && (Terminated(text) ==> Terminated(set_))
            && c.Load(set_) == CloseAll(c.Load(text), id, o, ev)
            && Corrupt(c, Split(set_, '\n')) == Corrupt(c, Split(text, '\n'))
  {
    hide Split, Join, Codec.Episodes, Corrupt, Codec.Rewritten, Codec.Matches, Codec.Ok;
    var lines := Split(text, '\n');
    RewriteIsLines(c, lines, id, o, ev);
    SplitInverts(c.RewriteAll(lines, id, o, ev), '\n');
    RewriteReads(c, lines, id, o, ev);
    TerminatedMeans(text);
    TerminatedMeans(c.SetText(text, id, o, ev));
  }

  lemma RewriteIsLines(c: Codec, lines: seq<string>, id: string, o: Option<Outcome>, ev: Option<string>)
    requires c.Ok() && lines != [] && forall k :: 0 <= k < |lines| ==> '\n' !in lines[k]
    ensures var r := c.RewriteAll(lines, id, o, ev);
            r != [] && (forall k :: 0 <= k < |r| ==> '\n' !in r[k])
            && (lines[|lines| - 1] == "" ==> r[|r| - 1] == "")
  {
  }

  lemma RewriteTwice(c: Codec, lines: seq<string>, id: string, o: Option<Outcome>, ev: Option<string>)
    requires c.Ok()
    ensures c.RewriteAll(c.RewriteAll(lines, id, o, ev), id, o, ev) == c.RewriteAll(lines, id, o, ev)
    ensures c.Holds(c.RewriteAll(lines, id, o, ev), id) <==> c.Holds(lines, id)
  {
    var once := c.RewriteAll(lines, id, o, ev);
    forall k | 0 <= k < |lines|
      ensures c.Rewritten(once[k], id, o, ev) == once[k] && (c.Matches(once[k], id) <==> c.Matches(lines[k], id))
    {
      RewriteLineTwice(c, lines[k], id, o, ev);
    }
    hide Codec.Rewritten, Codec.Matches, Codec.Ok;
  }

  lemma RewriteLineTwice(c: Codec, line: string, id: string, o: Option<Outcome>, ev: Option<string>)
    requires c.Ok()
    ensures var once := c.Rewritten(line, id, o, ev);
            c.Rewritten(once, id, o, ev) == once && (c.Matches(once, id) <==> c.Matches(line, id))
  {
  }

  ghost predicate Known(es: seq<Episode>, id: string) {
    exists k :: 0 <= k < |es| && es[k].incidentId == id
  }

  /** The store holds an incident exactly when an Episode of it loads. */
  lemma {:induction false} HoldsIffLoaded(c: Codec, lines: seq<string>, id: string)
    ensures c.Holds(lines, id) <==> Known(c.Episodes(lines), id)
  {
    if lines != [] {
      var front, line := lines[..|lines| - 1], lines[|lines| - 1];
      HoldsIffLoaded(c, front, id);
      var a, all := c.Episodes(front), c.Episodes(lines);
      if c.Holds(lines, id) {
        var k :| 0 <= k < |lines| && c.Matches(lines[k], id);
        if k < |front| {
          assert c.Matches(front[k], id);
          var m :| 0 <= m < |a| && a[m].incidentId == id;
          assert all[m] == a[m];
        } else {
          assert all[|a|].incidentId == id;
        }
      }
      if m :| 0 <= m < |all| && all[m].incidentId == id {
        if m < |a| {
          assert a[m] == all[m];
          var k :| 0 <= k < |front| && c.Matches(front[k], id);
          assert c.Matches(lines[k], id);
        } else {
          assert c.Matches(lines[|lines| - 1], id);
        }
      }
    }
  }

  lemma UnknownChangesNothing(c: Codec, text: string, id: string, o: Option<Outcome>, ev: Option<string>)
    ensures !c.Holds(Split(text, '\n'), id) ==> CloseAll(c.Load(text), id, o, ev) == c.Load(text)
  {
    hide Split, Codec.Episodes, Codec.Holds;
    HoldsIffLoaded(c, Split(text, '\n'), id);
    if !c.Holds(Split(text, '\n'), id) {
      var es := c.Load(text);
      assert !Known(es, id);
      assert forall k :: 0 <= k < |es| ==> CloseAll(es, id, o, ev)[k] == es[k];
    }
  }

  /** Setting the same outcome again changes nothing. */
  lemma SetTwice(c: Codec, text: string, id: string, o: Option<Outcome>, ev: Option<string>)
    requires c.Ok()
    ensures c.SetText(c.SetText(text, id, o, ev), id, o, ev) == c.SetText(text, id, o, ev)
    ensures c.Holds(Split(c.SetText(text, id, o, ev), '\n'), id) <==> c.Holds(Split(text, '\n'), id)
  {
    hide Split, Join, Codec.Load, Codec.RewriteAll, Codec.Holds, Corrupt, CloseAll, Terminated;
    SetRefines(c, text, id, o, ev);
    RewriteTwice(c, Split(text, '\n'), id, o, ev);
  }

  // ----- Any sequence of operations -----

  datatype Op = Added(episode: Episode) | Set(id: string, outcome: Option<Outcome>, evidence: Option<string>)

  /** What an operation does to the file: an unknown incident changes nothing. */
  ghost function OnFile(c: Codec, text: string, op: Op): string {
    match op
    case Added(e) => text + c.dump(e) + "\n"
    case Set(id, o, ev) => if c.Holds(Split(text, '\n'), id) then c.SetText(text, id, o, ev) else text
  }

  ghost function OnList(es: seq<Episode>, op: Op): seq<Episode> {
    match op
    case Added(e) => es + [e]
    case Set(id, o, ev) => CloseAll(es, id, o, ev)
  }

  ghost function FileAfter(c: Codec, text: string, ops: seq<Op>): string {
    if ops == [] then text else OnFile(c, FileAfter(c, text, ops[..|ops| - 1]), ops[|ops| - 1])
  }

  ghost function ListAfter(es: seq<Episode>, ops: seq<Op>): seq<Episode> {
    if ops == [] then es else OnList(ListAfter(es, ops[..|ops| - 1]), ops[|ops| - 1])
  }

  /** From any terminated file, corrupt lines and all, the file goes on meaning the list. */
  lemma {:induction false} FileRefinesList(c: Codec, text: string, ops: seq<Op>)
    requires c.Ok() && Terminated(text)
    ensures Terminated(FileAfter(c, text, ops))
    ensures c.Load(FileAfter(c, text, ops)) == ListAfter(c.Load(text), ops)
    ensures Corrupt(c, Split(FileAfter(c, text, ops), '\n')) == Corrupt(c, Split(text, '\n'))
  {
    hide Split, Codec.Load, Codec.Holds, Codec.SetText, Corrupt, Terminated, Codec.Ok;
    if ops != [] {
      FileRefinesList(c, text, ops[..|ops| - 1]);
      var before := FileAfter(c, text, ops[..|ops| - 1]);
      match ops[|ops| - 1]
      case Added(e) => AddRefines(c, before, e);
      case Set(id, o, ev) =>
        SetRefines(c, before, id, o, ev);
        UnknownChangesNothing(c, before, id, o, ev);
    }
  }
}
