/** Cutting and packing a clause's text into chunk bodies (triage/scripts/build_corpus.py:168-198). */
module Packing {
  import opened Common
  import opened Strings

  function TotalLength(parts: seq<string>): nat {
    if parts == [] then 0 else TotalLength(parts[..|parts| - 1]) + |parts[|parts| - 1]|
  }

  lemma TotalSnoc(parts: seq<string>, p: string)
    ensures TotalLength(parts + [p]) == TotalLength(parts) + |p|
  {
    assert (parts + [p])[..|parts|] == parts;
  }

  lemma {:induction false} TotalConcat(a: seq<string>, b: seq<string>)
    ensures TotalLength(a + b) == TotalLength(a) + TotalLength(b)
  {
    if b == [] {
      assert a + b == a;
    } else {
      TotalConcat(a, b[..|b| - 1]);
      ConcatSnoc(a, b);
      TotalSnoc(a + b[..|b| - 1], b[|b| - 1]);
    }
  }

  lemma {:induction false} TotalIsJoined(parts: seq<string>)
    ensures TotalLength(parts) == |Join(parts, "")|
  {
    if |parts| > 1 {
      TotalIsJoined(parts[..|parts| - 1]);
    }
  }

  // ----- Slices -----

  /** text.split(" ") */
  function Words(text: string): seq<string> {
    Split(text, ' ')
  }

  datatype Cut = Cut(out: seq<string>, buf: string)

  /** Where the cutting stands after the words. */
  ghost function Cutting(words: seq<string>, maxChars: nat): Cut {
    if words == [] then Cut([], "")
    else
      var c, word := Cutting(words[..|words| - 1], maxChars), words[|words| - 1];
      if c.buf != "" && |c.buf| + |word| + 1 > maxChars then Cut(c.out + [c.buf], word)
      else Cut(c.out, if c.buf != "" then c.buf + " " + word else word)
  }

  ghost function Pending(c: Cut): seq<string> {
    if c.buf != "" then c.out + [c.buf] else c.out
  }

  ghost function SlicesOf(text: string, maxChars: nat): seq<string> {
    if |text| <= maxChars then [text] else Pending(Cutting(Words(text), maxChars))
  }

  method Slices(text: string, maxChars: nat) returns (out: seq<string>)
    ensures out == SlicesOf(text, maxChars)
  {
    if |text| <= maxChars {
      return [text];
    }
    var words := Words(text);
    var buf := "";
    out := [];
    for i := 0 to |words|
      invariant Cut(out, buf) == Cutting(words[..i], maxChars)
    {
      var word := words[i];
      TakeSnoc(words, i);
      if buf != "" && |buf| + |word| + 1 > maxChars {
        out := out + [buf];
        buf := word;
      } else {
        buf := if buf != "" then buf + " " + word else word;
      }
    }
    assert words[..|words|] == words;
    if buf != "" {
      out := out + [buf];
    }
  }

  /** How often a word left the buffer empty: each time a space is dropped. */
  ghost function Emptied(words: seq<string>, maxChars: nat): nat {
    if words == [] then 0
    else Emptied(words[..|words| - 1], maxChars) + if Cutting(words, maxChars).buf == "" then 1 else 0
  }

  /** One more word that leaves something in the buffer joins what there is by a space. */
  lemma PendingStep(c: Cut, word: string, maxChars: nat, next: Cut)
    requires c.buf == "" ==> c.out == []
    requires next == if c.buf != "" && |c.buf| + |word| + 1 > maxChars then Cut(c.out + [c.buf], word)
                     else Cut(c.out, if c.buf != "" then c.buf + " " + word else word)
    requires next.buf != ""
    ensures Join(Pending(next), " ") == if c.buf == "" then word else Join(Pending(c), " ") + " " + word
  {
    JoinSnoc(c.out, " ", word);
    JoinSnoc(c.out, " ", c.buf);
    JoinSnoc(c.out, " ", c.buf + " " + word);
    JoinSnoc(c.out + [c.buf], " ", word);
    hide Join;
    Associates(Join(c.out, " ") + " ", c.buf + " ", word);
    Associates(Join(c.out, " ") + " ", c.buf, " ");
  }

  /** The slices rejoin to the words, as long as no word left the buffer empty. */
  lemma {:induction false} CuttingKeeps(words: seq<string>, maxChars: nat)
    requires words != [] && Emptied(words, maxChars) == 0
    ensures Cutting(words, maxChars).buf != ""
    ensures Join(Pending(Cutting(words, maxChars)), " ") == Join(words, " ")
  {
    hide Join, Pending;
    var before, word := words[..|words| - 1], words[|words| - 1];
    var c := Cutting(before, maxChars);
    assert words == before + [word];
    JoinSnoc(before, " ", word);
    if before != [] {
      CuttingKeeps(before, maxChars);
    }
    PendingStep(c, word, maxChars, Cutting(words, maxChars));
  }

  lemma LengthSnoc(parts: seq<string>, p: string)
    ensures |Join(parts + [p], " ")| == (if parts == [] then 0 else |Join(parts, " ")| + 1) + |p|
  {
    JoinSnoc(parts, " ", p);
  }

  /** Each word that leaves the buffer empty costs one character; while there is no slice, the first costs none. */
  lemma {:induction false} CuttingLoses(words: seq<string>, maxChars: nat)
    requires words != []
    ensures var kept := Pending(Cutting(words, maxChars));
            |Join(kept, " ")| + Emptied(words, maxChars) == |Join(words, " ")| + if kept == [] then 1 else 0
  {
    hide Join;
    var before, word := words[..|words| - 1], words[|words| - 1];
    var c := Cutting(before, maxChars);
    assert words == before + [word];
    LengthSnoc(before, word);
    LengthSnoc(c.out, c.buf);
    LengthSnoc(c.out + [c.buf], word);
    LengthSnoc(c.out, word);
    LengthSnoc(c.out, c.buf + " " + word);
    JoinNothing();
    if before != [] {
      CuttingLoses(before, maxChars);
    }
  }

  lemma JoinNothing()
    ensures Join([], " ") == ""
  {
  }

  /** An empty word comes first, or meets a buffer with no room for another space. */
  ghost predicate SpaceLost(words: seq<string>, i: nat, maxChars: nat) {
    i < |words| && words[i] == "" && (i == 0 || |Cutting(words[..i], maxChars).buf| >= maxChars)
  }

  lemma {:induction false} EmptiedIff(words: seq<string>, maxChars: nat)
    ensures Emptied(words, maxChars) == 0 <==> forall i: nat :: !SpaceLost(words, i, maxChars)
    ensures Emptied(words, maxChars) == 0 && words != [] ==> Cutting(words, maxChars).buf != ""
  {
    if words != [] {
      var n := |words| - 1;
      EmptiedIff(words[..n], maxChars);
      assert forall i :: 0 <= i < n ==> words[..n][..i] == words[..i];
      assert forall i: nat :: i < n ==> (SpaceLost(words, i, maxChars) <==> SpaceLost(words[..n], i, maxChars));
      assert Emptied(words[..n], maxChars) == 0 ==>
               (Cutting(words, maxChars).buf == "" <==> SpaceLost(words, n, maxChars));
      if Emptied(words, maxChars) == 0 {
        forall i: nat
          ensures !SpaceLost(words, i, maxChars)
        {
          assert i < n ==> !SpaceLost(words[..n], i, maxChars);
        }
      } else if Emptied(words[..n], maxChars) != 0 {
        var i: nat :| SpaceLost(words[..n], i, maxChars);
        assert SpaceLost(words, i, maxChars);
      }
    }
  }

  /** Slicing is undone by joining with spaces exactly when the text fits or no space is lost at a cut. */
  lemma SlicesRejoinIff(text: string, maxChars: nat)
    ensures Join(SlicesOf(text, maxChars), " ") == text <==>
            |text| <= maxChars || forall i: nat :: !SpaceLost(Words(text), i, maxChars)
  {
    hide Join, Cutting, Emptied, SpaceLost;
    SplitRejoins(text, ' ');
    JoinOne(" ", text);
    JoinNothing();
    CuttingLoses(Words(text), maxChars);
    EmptiedIff(Words(text), maxChars);
    if Emptied(Words(text), maxChars) == 0 {
      CuttingKeeps(Words(text), maxChars);
    }
  }

  /** In particular text whose words are all non-empty is cut without loss. */
  lemma SlicesRejoin(text: string, maxChars: nat)
    requires "" !in Words(text)
    ensures Join(SlicesOf(text, maxChars), " ") == text
  {
    SlicesRejoinIff(text, maxChars);
  }

  /** A space at a cut can be lost. */
  lemma SlicesMayLose()
    ensures SlicesOf("a ", 1) == ["a"] && Join(["a"], " ") != "a "
  {
    assert "a"[..0] == "" && [""][..0] == [] && "" + ['a'] == "a";
    assert Words("a") == [] + ["a"];
    assert "a "[..1] == "a" && Words("a ") == ["a"] + [""];
    assert ["a", ""][..1] == ["a"] && ["a"][..0] == [];
    assert Cutting(["a"], 1) == Cut([], "a");
    assert Cutting(["a", ""], 1) == Cut([] + ["a"], "");
  }

  /** A slice fits, unless it is a single word. */
  ghost predicate Fits(slice: string, maxChars: nat) {
    |slice| <= maxChars || ' ' !in slice
  }

  lemma {:induction false} SlicesFit(text: string, maxChars: nat)
    ensures forall slice :: slice in SlicesOf(text, maxChars) ==> Fits(slice, maxChars)
  {
    if |text| > maxChars {
      CuttingFits(Words(text), maxChars);
    }
  }

  lemma {:induction false} CuttingFits(words: seq<string>, maxChars: nat)
    requires forall k :: 0 <= k < |words| ==> ' ' !in words[k]
    ensures forall slice :: slice in Pending(Cutting(words, maxChars)) ==> Fits(slice, maxChars)
  {
    if words != [] {
      CuttingFits(words[..|words| - 1], maxChars);
      var c := Cutting(words[..|words| - 1], maxChars);
      assert c.buf != "" ==> c.buf in Pending(c);
      assert forall slice :: slice in c.out ==> slice in Pending(c);
    }
  }

  // ----- Packing -----

  /** The slices of every unit, in order. */
  ghost function Pieces(texts: seq<string>, maxChars: nat): seq<string> {
    if texts == [] then []
    else Pieces(texts[..|texts| - 1], maxChars) + SlicesOf(texts[|texts| - 1], maxChars)
  }

  /** The full parts so far, and the one being filled. */
  datatype State = State(full: seq<seq<string>>, current: seq<string>)

  ghost function Filling(pieces: seq<string>, maxChars: nat): State {
    if pieces == [] then State([], [])
    else
      var p, piece := Filling(pieces[..|pieces| - 1], maxChars), pieces[|pieces| - 1];
      if p.current != [] && TotalLength(p.current) + |piece| > maxChars then State(p.full + [p.current], [piece])
      else State(p.full, p.current + [piece])
  }

  ghost function Parts(pieces: seq<string>, maxChars: nat): seq<seq<string>> {
    var p := Filling(pieces, maxChars);
    if p.current != [] then p.full + [p.current] else p.full
  }

  /** The bodies: each part's pieces, joined by blank lines. */
  ghost function Bodies(parts: seq<seq<string>>): (bodies: seq<string>)
    ensures |bodies| == |parts|
    ensures forall i :: 0 <= i < |parts| ==> bodies[i] == Join(parts[i], "\n\n")
  {
    if parts == [] then [] else Bodies(parts[..|parts| - 1]) + [Join(parts[|parts| - 1], "\n\n")]
  }

  lemma BodiesSnoc(parts: seq<seq<string>>, p: seq<string>)
    ensures Bodies(parts + [p]) == Bodies(parts) + [Join(p, "\n\n")]
  {
    assert (parts + [p])[..|parts|] == parts;
  }

  ghost function PackOf(texts: seq<string>, maxChars: nat): seq<string> {
    Bodies(Parts(Pieces(texts, maxChars), maxChars))
  }

  method Pack(texts: seq<string>, maxChars: nat) returns (parts: seq<string>)
    ensures parts == PackOf(texts, maxChars)
  {
    hide *;
    var current: seq<string>, size := [], 0;
    ghost var full: seq<seq<string>> := [];
    parts := [];
    PackNothing(maxChars);
    assert texts[..0] == [];
    for i := 0 to |texts|
      invariant State(full, current) == Filling(Pieces(texts[..i], maxChars), maxChars)
      invariant parts == Bodies(full) && size == TotalLength(current)
    {
      var slices := Slices(texts[i], maxChars);
      ghost var before := Pieces(texts[..i], maxChars);
      TakeSnoc(texts, i);
      PiecesSnoc(texts[..i], texts[i], maxChars);
      assert before + slices[..0] == before;
      for j := 0 to |slices|
        invariant State(full, current) == Filling(before + slices[..j], maxChars)
        invariant parts == Bodies(full) && size == TotalLength(current)
      {
        var piece := slices[j];
        FillingSnoc(before + slices[..j], piece, maxChars);
        TakeSnoc(slices, j);
        Associates(before, slices[..j], [piece]);
        if current != [] && size + |piece| > maxChars {
          parts := parts + [Join(current, "\n\n")];
          BodiesSnoc(full, current);
          full := full + [current];
          current, size := [], 0;
          PackNothing(maxChars);
        }
        TotalSnoc(current, piece);
        current := current + [piece];
        size := size + |piece|;
      }
      assert slices[..|slices|] == slices;
    }
    assert texts[..|texts|] == texts;
    PackEnd(texts, maxChars, full, current);
    if current != [] {
      parts := parts + [Join(current, "\n\n")];
      BodiesSnoc(full, current);
    }
  }

  lemma PackNothing(maxChars: nat)
    ensures Bodies([]) == [] && Pieces([], maxChars) == [] && Filling([], maxChars) == State([], [])
    ensures TotalLength([]) == 0
  {
  }

  lemma PiecesSnoc(texts: seq<string>, text: string, maxChars: nat)
    ensures Pieces(texts + [text], maxChars) == Pieces(texts, maxChars) + SlicesOf(text, maxChars)
  {
    assert (texts + [text])[..|texts|] == texts;
  }

  lemma PackEnd(texts: seq<string>, maxChars: nat, full: seq<seq<string>>, current: seq<string>)
    requires Filling(Pieces(texts, maxChars), maxChars) == State(full, current)
    ensures PackOf(texts, maxChars) == Bodies(if current != [] then full + [current] else full)
  {
  }

  lemma FillingSnoc(pieces: seq<string>, piece: string, maxChars: nat)
    ensures var p := Filling(pieces, maxChars);
            Filling(pieces + [piece], maxChars) ==
              if p.current != [] && TotalLength(p.current) + |piece| > maxChars
              then State(p.full + [p.current], [piece])
              else State(p.full, p.current + [piece])
  {
    assert (pieces + [piece])[..|pieces|] == pieces;
  }

  /** A part holds at most maxChars characters, or is a single piece. */
  ghost predicate PartFits(part: seq<string>, maxChars: nat) {
    part != [] && (TotalLength(part) <= maxChars || |part| == 1)
  }

  /** Packing keeps every piece, in order; every part fits; and none could have taken the next part's first piece. */
  ghost predicate Greedy(parts: seq<seq<string>>, pieces: seq<string>, maxChars: nat) {
    && Flatten(parts) == pieces
    && (forall i :: 0 <= i < |parts| ==> PartFits(parts[i], maxChars))
    && (forall i :: 0 < i < |parts| ==> Overflows(parts[i - 1], parts[i], maxChars))
  }

  ghost predicate Overflows(part: seq<string>, next: seq<string>, maxChars: nat) {
    next != [] && TotalLength(part) + |next[0]| > maxChars
  }

  lemma {:induction false} PackingIsGreedy(pieces: seq<string>, maxChars: nat)
    ensures Greedy(Parts(pieces, maxChars), pieces, maxChars)
  {
    hide Greedy, TotalLength;
    CurrentIsNonEmpty(pieces, maxChars);
    if pieces == [] {
      GreedyNothing(maxChars);
    } else {
      var before, piece := pieces[..|pieces| - 1], pieces[|pieces| - 1];
      PackingIsGreedy(before, maxChars);
      CurrentIsNonEmpty(before, maxChars);
      var p := Filling(before, maxChars);
      assert pieces == before + [piece];
      if before == [] {
        GreedyFirst(piece, maxChars);
        assert pieces == [piece] && Parts(pieces, maxChars) == [[piece]];
      } else if TotalLength(p.current) + |piece| > maxChars {
        GreedyOpen(p.full, p.current, before, piece, maxChars);
      } else {
        GreedyGrow(p.full, p.current, before, piece, maxChars);
      }
    }
  }

  lemma GreedyNothing(maxChars: nat)
    ensures Greedy([], [], maxChars)
  {
  }

  lemma GreedyFirst(piece: string, maxChars: nat)
    ensures Greedy([[piece]], [piece], maxChars)
  {
    FlattenSnoc([], [piece]);
  }

  lemma GreedyOpen(full: seq<seq<string>>, part: seq<string>, pieces: seq<string>, piece: string, maxChars: nat)
    requires part != [] && TotalLength(part) + |piece| > maxChars
    ensures Greedy(full + [part], pieces, maxChars) <==>
            Greedy(full + [part] + [[piece]], pieces + [piece], maxChars)
  {
    var parts := full + [part];
    FlattenSnoc(parts, [piece]);
    assert parts == (parts + [[piece]])[..|parts|];
    assert (pieces + [piece])[..|pieces|] == pieces;
    hide Flatten, TotalLength;
    var longer := parts + [[piece]];
    assert longer[|parts| - 1] == part && longer[|parts|] == [piece];
    assert forall i :: 0 <= i < |parts| ==> longer[i] == parts[i];
    if Greedy(longer, pieces + [piece], maxChars) {
      assert Flatten(parts) == (Flatten(parts) + [piece])[..|Flatten(parts)|];
    }
  }

  lemma GreedyGrow(full: seq<seq<string>>, part: seq<string>, pieces: seq<string>, piece: string, maxChars: nat)
    requires part != [] && TotalLength(part) + |piece| <= maxChars
    ensures Greedy(full + [part], pieces, maxChars) <==>
            Greedy(full + [part + [piece]], pieces + [piece], maxChars)
  {
    FlattenSnoc(full, part);
    FlattenSnoc(full, part + [piece]);
    TotalSnoc(part, piece);
    hide Flatten, TotalLength;
    var a, b := full + [part], full + [part + [piece]];
    Associates(Flatten(full), part, [piece]);
    assert pieces == (pieces + [piece])[..|pieces|];
    assert Flatten(full) + part == (Flatten(full) + part + [piece])[..|Flatten(full) + part|];
    assert a[|full|] == part && b[|full|] == part + [piece] && (part + [piece])[0] == part[0];
    assert forall i :: 0 <= i < |full| ==> a[i] == full[i] && b[i] == full[i];
    if Greedy(a, pieces, maxChars) {
      assert full != [] ==> Overflows(a[|full| - 1], a[|full|], maxChars);
    }
    if Greedy(b, pieces + [piece], maxChars) {
      assert PartFits(b[|full|], maxChars);
    }
  }

  lemma CurrentIsNonEmpty(pieces: seq<string>, maxChars: nat)
    ensures Filling(pieces, maxChars).current == [] <==> pieces == []
    ensures pieces == [] ==> Filling(pieces, maxChars).full == []
  {
  }

  /** The packing is the only greedy one. */
  lemma {:induction false} GreedyIsUnique(parts: seq<seq<string>>, pieces: seq<string>, maxChars: nat)
    requires Greedy(parts, pieces, maxChars)
    ensures parts == Parts(pieces, maxChars)
    decreases |pieces|
  {
    hide *;
    GreedyShape(parts, pieces, maxChars);
    if parts != [] {
      var full, last := parts[..|parts| - 1], parts[|parts| - 1];
      var part, piece, before := last[..|last| - 1], last[|last| - 1], pieces[..|pieces| - 1];
      if part != [] {
        GreedyGrow(full, part, before, piece, maxChars);
        GreedyIsUnique(full + [part], before, maxChars);
        PartsStep(before, piece, maxChars, full, part);
      } else if full != [] {
        GreedyOpen(full[..|full| - 1], full[|full| - 1], before, piece, maxChars);
        GreedyIsUnique(full, before, maxChars);
        PartsStep(before, piece, maxChars, full[..|full| - 1], full[|full| - 1]);
      } else {
        PartsStart(piece, maxChars);
        assert parts == [[piece]];
      }
    } else {
      PartsStart("", maxChars);
    }
  }

  lemma PartsStart(piece: string, maxChars: nat)
    ensures Parts([], maxChars) == [] && Parts([piece], maxChars) == [[piece]]
  {
    FillingSnoc([], piece, maxChars);
    assert [] + [piece] == [piece];
  }

  lemma PartsStep(pieces: seq<string>, piece: string, maxChars: nat, full: seq<seq<string>>, part: seq<string>)
    requires Parts(pieces, maxChars) == full + [part]
    ensures Parts(pieces + [piece], maxChars) ==
            if TotalLength(part) + |piece| > maxChars then full + [part] + [[piece]] else full + [part + [piece]]
  {
    CurrentIsNonEmpty(pieces, maxChars);
    var p := Filling(pieces, maxChars);
    assert p.current != [] && p.full + [p.current] == full + [part];
    assert |p.full| == |full| && (p.full + [p.current])[..|full|] == p.full;
    assert p.current == part;
    FillingSnoc(pieces, piece, maxChars);
    hide Filling, TotalLength;
    var next := Filling(pieces + [piece], maxChars);
    assert next.current != [];
    assert Parts(pieces + [piece], maxChars) == next.full + [next.current];
  }

  /** Taking a greedy packing apart at its last piece. */
  lemma GreedyShape(parts: seq<seq<string>>, pieces: seq<string>, maxChars: nat)
    requires Greedy(parts, pieces, maxChars)
    ensures parts == [] <==> pieces == []
    ensures parts != [] ==>
              var full, last := parts[..|parts| - 1], parts[|parts| - 1];
              && last != [] && last == last[..|last| - 1] + [last[|last| - 1]] && parts == full + [last]
              && pieces == pieces[..|pieces| - 1] + [last[|last| - 1]]
              && (last[..|last| - 1] != [] ==> TotalLength(last[..|last| - 1]) + |last[|last| - 1]| <= maxChars)
              && (|last| == 1 && full == [] ==> pieces == last)
              && (full != [] ==> full == full[..|full| - 1] + [full[|full| - 1]] && full[|full| - 1] != [])
              && (full != [] && |last| == 1 ==> TotalLength(full[|full| - 1]) + |last[0]| > maxChars)
  {
    hide Greedy, Flatten, TotalLength, PartFits, Overflows;
    GreedyEnds(parts, pieces, maxChars);
    if parts != [] {
      var full, last := parts[..|parts| - 1], parts[|parts| - 1];
      LastSplits(parts);
      LastSplits(last);
      LastSplits(pieces);
      assert pieces[|pieces| - 1] == last[|last| - 1];
      TotalSnoc(last[..|last| - 1], last[|last| - 1]);
      if full != [] {
        LastSplits(full);
      }
    }
  }

  lemma LastSplits<T>(s: seq<T>)
    requires s != []
    ensures s == s[..|s| - 1] + [s[|s| - 1]]
  {
  }

  /** The last two parts of a greedy packing. */
  lemma GreedyEnds(parts: seq<seq<string>>, pieces: seq<string>, maxChars: nat)
    requires Greedy(parts, pieces, maxChars)
    ensures parts == [] ==> pieces == []
    ensures parts != [] ==>
              var full, last := parts[..|parts| - 1], parts[|parts| - 1];
              && last != [] && pieces == Flatten(full) + last && pieces[|pieces| - 1] == last[|last| - 1]
              && (full == [] ==> pieces == last) && (|last| > 1 ==> TotalLength(last) <= maxChars)
              && (full != [] ==> full[|full| - 1] != [] && TotalLength(full[|full| - 1]) + |last[0]| > maxChars)
  {
    if parts != [] {
      assert PartFits(parts[|parts| - 1], maxChars);
      if |parts| > 1 {
        assert PartFits(parts[|parts| - 2], maxChars);
        assert Overflows(parts[|parts| - 2], parts[|parts| - 1], maxChars);
      }
    }
    hide TotalLength;
  }

  // ----- Sizes -----

  ghost function TotalOf(parts: seq<seq<string>>): nat {
    if parts == [] then 0 else TotalOf(parts[..|parts| - 1]) + TotalLength(parts[|parts| - 1])
  }

  lemma {:induction false} TotalOfParts(parts: seq<seq<string>>)
    ensures TotalOf(parts) == TotalLength(Flatten(parts))
  {
    if parts != [] {
      TotalOfParts(parts[..|parts| - 1]);
      TotalConcat(Flatten(parts[..|parts| - 1]), parts[|parts| - 1]);
    }
  }

  /** Any two consecutive parts together exceed the limit, so there are not many parts. */
  lemma {:induction false} FewParts(parts: seq<seq<string>>, maxChars: nat)
    requires forall i :: 0 < i < |parts| ==> TotalLength(parts[i - 1]) + TotalLength(parts[i]) > maxChars
    ensures parts != [] ==> (|parts| - 1) * maxChars + TotalLength(parts[|parts| - 1]) <= 2 * TotalOf(parts)
    ensures |parts| > 1 ==> (|parts| - 1) * maxChars + TotalLength(parts[|parts| - 1]) < 2 * TotalOf(parts)
  {
    if |parts| > 1 {
      var before := parts[..|parts| - 1];
      FewParts(before, maxChars);
      assert before[|before| - 1] == parts[|parts| - 2];
      assert (|parts| - 1) * maxChars == (|before| - 1) * maxChars + maxChars;
    }
  }

  lemma {:induction false} FirstIsPart(part: seq<string>)
    requires part != []
    ensures |part[0]| <= TotalLength(part)
  {
    if |part| > 1 {
      FirstIsPart(part[..|part| - 1]);
    }
  }

  /** What packing promises of any text: every piece in its place, parts that fit unless they are one
      oversize word, no two neighbours that would fit together, and hence a bound on their number. */
  lemma PackingBounds(texts: seq<string>, maxChars: nat)
    ensures var pieces := Pieces(texts, maxChars);
            var parts := Parts(pieces, maxChars);
            && Flatten(parts) == pieces
            && (forall i :: 0 <= i < |parts| ==>
                  TotalLength(parts[i]) <= maxChars || (|parts[i]| == 1 && ' ' !in parts[i][0]))
            && (forall i :: 0 < i < |parts| ==> TotalLength(parts[i - 1]) + TotalLength(parts[i]) > maxChars)
            && (|parts| > 1 ==> (|parts| - 1) * maxChars < 2 * TotalLength(pieces))
  {
    hide Pieces, Parts;
    var pieces := Pieces(texts, maxChars);
    var parts := Parts(pieces, maxChars);
    PackingIsGreedy(pieces, maxChars);
    PiecesFit(texts, maxChars);
    GreedyBounds(parts, pieces, maxChars);
  }

  lemma GreedyBounds(parts: seq<seq<string>>, pieces: seq<string>, maxChars: nat)
    requires Greedy(parts, pieces, maxChars) && forall piece :: piece in pieces ==> Fits(piece, maxChars)
    ensures forall i :: 0 <= i < |parts| ==>
              TotalLength(parts[i]) <= maxChars || (|parts[i]| == 1 && ' ' !in parts[i][0])
    ensures forall i :: 0 < i < |parts| ==> TotalLength(parts[i - 1]) + TotalLength(parts[i]) > maxChars
    ensures |parts| > 1 ==> (|parts| - 1) * maxChars < 2 * TotalLength(pieces)
  {
    hide TotalLength, Flatten;
    forall i | 0 <= i < |parts|
      ensures TotalLength(parts[i]) <= maxChars || (|parts[i]| == 1 && ' ' !in parts[i][0])
    {
      assert PartFits(parts[i], maxChars);
      if |parts[i]| == 1 {
        PieceOfPart(parts, i, 0);
        SingleLength(parts[i]);
      }
    }
    forall i | 0 < i < |parts|
      ensures TotalLength(parts[i - 1]) + TotalLength(parts[i]) > maxChars
    {
      assert Overflows(parts[i - 1], parts[i], maxChars);
      FirstIsPart(parts[i]);
    }
    FewParts(parts, maxChars);
    TotalOfParts(parts);
  }

  lemma SingleLength(part: seq<string>)
    requires |part| == 1
    ensures TotalLength(part) == |part[0]|
  {
    assert part == [] + [part[0]];
    TotalSnoc([], part[0]);
  }

  lemma {:induction false} PieceOfPart(parts: seq<seq<string>>, i: nat, j: nat)
    requires i < |parts| && j < |parts[i]|
    ensures parts[i][j] in Flatten(parts)
  {
    if i < |parts| - 1 {
      PieceOfPart(parts[..|parts| - 1], i, j);
    }
  }

  lemma {:induction false} PiecesFit(texts: seq<string>, maxChars: nat)
    ensures forall piece :: piece in Pieces(texts, maxChars) ==> Fits(piece, maxChars)
  {
    if texts != [] {
      PiecesFit(texts[..|texts| - 1], maxChars);
      SlicesFit(texts[|texts| - 1], maxChars);
    }
  }

  /** The blank lines between the pieces are not counted: a body is that much longer than its pieces. */
  lemma {:induction false} BodyLength(part: seq<string>)
    ensures |Join(part, "\n\n")| == TotalLength(part) + if part == [] then 0 else 2 * (|part| - 1)
  {
    if |part| > 1 {
      BodyLength(part[..|part| - 1]);
    } else if |part| == 1 {
      assert part[..0] == [];
    }
  }

  // ----- When bodies keep to the limit -----

  /** The packing whose guard counts the blank lines as well. */
  ghost function FillingCounted(pieces: seq<string>, maxChars: nat): State {
    if pieces == [] then State([], [])
    else
      var p, piece := FillingCounted(pieces[..|pieces| - 1], maxChars), pieces[|pieces| - 1];
      if p.current != [] && TotalLength(p.current) + 2 * |p.current| + |piece| > maxChars
      then State(p.full + [p.current], [piece])
      else State(p.full, p.current + [piece])
  }

  /** The part is one piece, or there is room for its pieces and the blank lines between them. */
  ghost predicate HasRoom(part: seq<string>, maxChars: nat) {
    |part| <= 1 || TotalLength(part) + 2 * (|part| - 1) <= maxChars
  }

  ghost predicate AllHaveRoom(p: State, maxChars: nat) {
    (forall i :: 0 <= i < |p.full| ==> HasRoom(p.full[i], maxChars)) && HasRoom(p.current, maxChars)
  }

  lemma CountedSnoc(pieces: seq<string>, piece: string, maxChars: nat)
    ensures var p := FillingCounted(pieces, maxChars);
            FillingCounted(pieces + [piece], maxChars) ==
              if p.current != [] && TotalLength(p.current) + 2 * |p.current| + |piece| > maxChars
              then State(p.full + [p.current], [piece]) else State(p.full, p.current + [piece])
  {
    assert (pieces + [piece])[..|pieces|] == pieces;
  }

  /** One more piece, put with the current part or on its own. */
  lemma RoomStep(p: State, piece: string, maxChars: nat)
    ensures AllHaveRoom(State(p.full, p.current + [piece]), maxChars) ==>
              AllHaveRoom(p, maxChars)
              && (p.current != [] ==> TotalLength(p.current) + 2 * |p.current| + |piece| <= maxChars)
    ensures AllHaveRoom(p, maxChars)
            && (p.current != [] ==> TotalLength(p.current) + 2 * |p.current| + |piece| <= maxChars) ==>
              AllHaveRoom(State(p.full, p.current + [piece]), maxChars)
    ensures AllHaveRoom(State(p.full + [p.current], [piece]), maxChars) <==> AllHaveRoom(p, maxChars)
  {
    TotalSnoc(p.current, piece);
    hide TotalLength;
    var full := p.full + [p.current];
    assert full[|p.full|] == p.current && forall i :: 0 <= i < |p.full| ==> full[i] == p.full[i];
  }

  /** The counted packing always leaves room, and the real one does exactly when it is the counted one. */
  lemma {:induction false} RoomIff(pieces: seq<string>, maxChars: nat)
    ensures AllHaveRoom(FillingCounted(pieces, maxChars), maxChars)
    ensures AllHaveRoom(Filling(pieces, maxChars), maxChars) <==>
            Filling(pieces, maxChars) == FillingCounted(pieces, maxChars)
  {
    if pieces != [] {
      var before, piece := pieces[..|pieces| - 1], pieces[|pieces| - 1];
      assert pieces == before + [piece];
      RoomIff(before, maxChars);
      FillingSnoc(before, piece, maxChars);
      CountedSnoc(before, piece, maxChars);
      RoomStep(Filling(before, maxChars), piece, maxChars);
      RoomStep(FillingCounted(before, maxChars), piece, maxChars);
    }
    hide TotalLength, AllHaveRoom;
  }

  lemma {:induction false} WordsAreShort(text: string, m: nat)
    requires |text| <= m
    ensures forall word :: word in Words(text) ==> |word| <= m
  {
    if text != "" {
      WordsAreShort(text[..|text| - 1], m - 1);
    }
  }

  lemma {:induction false} ShortSlicesIff(words: seq<string>, maxChars: nat)
    ensures (forall slice :: slice in Pending(Cutting(words, maxChars)) ==> |slice| <= maxChars) <==>
            forall word :: word in words ==> |word| <= maxChars
  {
    if words != [] {
      var before, word := words[..|words| - 1], words[|words| - 1];
      assert words == before + [word];
      ShortSlicesIff(before, maxChars);
      ShortStep(Cutting(before, maxChars), word, maxChars, Cutting(words, maxChars));
      hide Cutting, Pending;
    }
  }

  lemma ShortStep(c: Cut, word: string, maxChars: nat, next: Cut)
    requires next == if c.buf != "" && |c.buf| + |word| + 1 > maxChars then Cut(c.out + [c.buf], word)
                     else Cut(c.out, if c.buf != "" then c.buf + " " + word else word)
    ensures (forall slice :: slice in Pending(next) ==> |slice| <= maxChars) <==>
            (forall slice :: slice in Pending(c) ==> |slice| <= maxChars) && |word| <= maxChars
  {
    assert next.buf != "" ==> next.buf in Pending(next);
    assert c.buf != "" ==> c.buf in Pending(c);
    assert forall slice :: slice in c.out ==> slice in Pending(c) && slice in next.out;
    assert forall slice :: slice in next.out ==> slice in Pending(next);
    if c.buf != "" && |c.buf| + |word| + 1 > maxChars {
      assert forall slice :: slice in Pending(c) ==> slice in next.out;
    }
  }

  /** Every slice fits exactly when every word does. */
  lemma SlicesFitIff(text: string, maxChars: nat)
    ensures (forall slice :: slice in SlicesOf(text, maxChars) ==> |slice| <= maxChars) <==>
            forall word :: word in Words(text) ==> |word| <= maxChars
  {
    if |text| <= maxChars {
      WordsAreShort(text, maxChars);
    } else {
      ShortSlicesIff(Words(text), maxChars);
    }
  }

  ghost predicate WordsFit(texts: seq<string>, maxChars: nat) {
    forall i :: 0 <= i < |texts| ==> forall word :: word in Words(texts[i]) ==> |word| <= maxChars
  }

  lemma {:induction false} PiecesFitIff(texts: seq<string>, maxChars: nat)
    ensures (forall piece :: piece in Pieces(texts, maxChars) ==> |piece| <= maxChars) <==> WordsFit(texts, maxChars)
  {
    hide SlicesOf, Words;
    if texts != [] {
      var before, text := texts[..|texts| - 1], texts[|texts| - 1];
      PiecesFitIff(before, maxChars);
      SlicesFitIff(text, maxChars);
      var a, b := Pieces(before, maxChars), SlicesOf(text, maxChars);
      assert forall piece :: piece in a + b <==> piece in a || piece in b;
      assert WordsFit(texts, maxChars) <==>
             WordsFit(before, maxChars) && forall word :: word in Words(text) ==> |word| <= maxChars;
    }
  }

  /** The parts' bodies all fit exactly when the pieces do and there is room for the blank lines. */
  lemma PartsFitIff(parts: seq<seq<string>>, pieces: seq<string>, maxChars: nat)
    requires Greedy(parts, pieces, maxChars)
    ensures (forall i :: 0 <= i < |parts| ==> |Join(parts[i], "\n\n")| <= maxChars) <==>
            (forall i :: 0 <= i < |parts| ==> HasRoom(parts[i], maxChars))
            && forall piece :: piece in pieces ==> |piece| <= maxChars
    ensures forall i :: 0 <= i < |parts| ==>
              (HasRoom(parts[i], maxChars) <==> |parts[i]| == 1 || |Join(parts[i], "\n\n")| <= maxChars)
  {
    hide Join, TotalLength, Flatten;
    forall i | 0 <= i < |parts|
      ensures |Join(parts[i], "\n\n")| == TotalLength(parts[i]) + 2 * (|parts[i]| - 1)
      ensures |parts[i]| == 1 ==> TotalLength(parts[i]) == |parts[i][0]| && parts[i][0] in pieces
    {
      assert PartFits(parts[i], maxChars);
      BodyLength(parts[i]);
      if |parts[i]| == 1 {
        SingleLength(parts[i]);
        PieceOfPart(parts, i, 0);
      }
    }
    forall piece | piece in pieces
      ensures exists i :: 0 <= i < |parts| && |piece| <= TotalLength(parts[i]) && parts[i] != []
    {
      PartOfPiece(parts, piece);
    }
  }

  lemma {:induction false} PartOfPiece(parts: seq<seq<string>>, piece: string)
    requires piece in Flatten(parts)
    ensures exists i :: 0 <= i < |parts| && |piece| <= TotalLength(parts[i]) && parts[i] != []
  {
    var last := parts[|parts| - 1];
    if piece in last {
      PieceIsShorter(last, piece);
    } else {
      PartOfPiece(parts[..|parts| - 1], piece);
    }
  }

  lemma {:induction false} PieceIsShorter(part: seq<string>, piece: string)
    requires piece in part
    ensures |piece| <= TotalLength(part)
  {
    if piece != part[|part| - 1] {
      PieceIsShorter(part[..|part| - 1], piece);
    }
  }

  /** The bodies of several pieces keep to the limit exactly when counting the blank lines in the guard would have
      packed the same; all of them do exactly when moreover no word is longer than the limit. */
  lemma BodiesFitIff(texts: seq<string>, maxChars: nat)
    ensures var pieces, bodies := Pieces(texts, maxChars), PackOf(texts, maxChars);
            var parts := Parts(pieces, maxChars);
            && ((forall i :: 0 <= i < |parts| && |parts[i]| > 1 ==> |bodies[i]| <= maxChars) <==>
                  Filling(pieces, maxChars) == FillingCounted(pieces, maxChars))
            && ((forall i :: 0 <= i < |bodies| ==> |bodies[i]| <= maxChars) <==>
                  WordsFit(texts, maxChars) && Filling(pieces, maxChars) == FillingCounted(pieces, maxChars))
  {
    hide Pieces, Filling, FillingCounted, Bodies, WordsFit, Join;
    var pieces := Pieces(texts, maxChars);
    var p, parts := Filling(pieces, maxChars), Parts(pieces, maxChars);
    PackingIsGreedy(pieces, maxChars);
    PartsFitIff(parts, pieces, maxChars);
    PiecesFitIff(texts, maxChars);
    RoomIff(pieces, maxChars);
    assert (forall i :: 0 <= i < |parts| ==> HasRoom(parts[i], maxChars)) <==> AllHaveRoom(p, maxChars) by {
      assert p.current != [] ==> parts[|p.full|] == p.current;
      assert forall i :: 0 <= i < |p.full| ==> parts[i] == p.full[i];
    }
    var bodies := PackOf(texts, maxChars);
    assert |bodies| == |parts| && forall i :: 0 <= i < |parts| ==> bodies[i] == Join(parts[i], "\n\n");
    hide Greedy, HasRoom, AllHaveRoom, Parts;
  }

  /** So a body can be longer than maxChars. */
  lemma BodyMayExceed()
    ensures PackOf(["ab", "c"], 3) == ["ab\n\nc"] && |"ab\n\nc"| > 3
  {
    hide *;
    var pieces := ["ab", "c"];
    PackNothing(3);
    PiecesSnoc([], "ab", 3);
    PiecesSnoc(["ab"], "c", 3);
    ShortIsOneSlice("ab", 3);
    ShortIsOneSlice("c", 3);
    assert [] + ["ab"] == ["ab"] && ["ab"] + ["c"] == pieces;
    PartsStart("ab", 3);
    SingleLength(["ab"]);
    assert [] + [["ab"]] == [["ab"]];
    PartsStep(["ab"], "c", 3, [], ["ab"]);
    BodiesSnoc([], pieces);
    assert [] + [["ab"] + ["c"]] == [] + [pieces] == [pieces];
    JoinOne("\n\n", "ab");
    JoinSnoc(["ab"], "\n\n", "c");
    assert "ab" + "\n\n" + "c" == "ab\n\nc";
    PackIsBodies(pieces, 3);
  }

  /** Every slice of every text is found in some body. */
  lemma SlicesAreFound(texts: seq<string>, t: nat, slice: string, maxChars: nat)
    requires t < |texts| && slice in SlicesOf(texts[t], maxChars)
    ensures exists b, before, after :: 0 <= b < |PackOf(texts, maxChars)| &&
              PackOf(texts, maxChars)[b] == before + slice + after
  {
    var pieces := Pieces(texts, maxChars);
    SliceIsPiece(texts, t, slice, maxChars);
    PackingIsGreedy(pieces, maxChars);
    var parts := Parts(pieces, maxChars);
    var b := PartHolding(parts, slice);
    var before, after := JoinHolds(parts[b], slice);
    assert PackOf(texts, maxChars)[b] == before + slice + after;
  }

  lemma {:induction false} SliceIsPiece(texts: seq<string>, t: nat, slice: string, maxChars: nat)
    requires t < |texts| && slice in SlicesOf(texts[t], maxChars)
    ensures slice in Pieces(texts, maxChars)
  {
    hide SlicesOf;
    if t < |texts| - 1 {
      SliceIsPiece(texts[..|texts| - 1], t, slice, maxChars);
    }
  }

  lemma {:induction false} PartHolding(parts: seq<seq<string>>, piece: string) returns (b: nat)
    requires piece in Flatten(parts)
    ensures b < |parts| && piece in parts[b]
  {
    if piece in parts[|parts| - 1] {
      b := |parts| - 1;
    } else {
      b := PartHolding(parts[..|parts| - 1], piece);
    }
  }

  lemma {:induction false} JoinHolds(part: seq<string>, piece: string) returns (before: string, after: string)
    requires piece in part
    ensures Join(part, "\n\n") == before + piece + after
  {
    var front, last := part[..|part| - 1], part[|part| - 1];
    assert part == front + [last];
    JoinSnoc(front, "\n\n", last);
    if piece == last {
      before, after := if front == [] then "" else Join(front, "\n\n") + "\n\n", "";
    } else {
      before, after := JoinHolds(front, piece);
      after := after + "\n\n" + last;
    }
  }

  lemma ShortIsOneSlice(text: string, maxChars: nat)
    requires |text| <= maxChars
    ensures SlicesOf(text, maxChars) == [text]
  {
  }

  lemma PackIsBodies(texts: seq<string>, maxChars: nat)
    ensures PackOf(texts, maxChars) == Bodies(Parts(Pieces(texts, maxChars), maxChars))
  {
  }
}
