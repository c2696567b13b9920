/** Building the clause tree of a specification from its headings
    (triage/scripts/build_corpus.py:201-231). Headings carry only clause numbers; a stack of
    open clauses turns their sequence into a tree. Here the stack is a value: what the tree
    says is proved about it, and the builder itself is proved to follow it. */
module ClauseTree {
  import opened Common

  datatype Kind = Heading | Paragraph | Row

  datatype Unit = Unit(kind: Kind, text: string)

  /** How headings read: their clause token, if numbered, their title, and whether the title is to be skipped. */
  datatype Reader = Reader(token: string -> Option<string>, title: string -> string, skip: string -> bool)

  /** A clause: the position of its heading in the document, its number and title, and its text. */
  datatype Section = Section(at: nat, clause: string, heading: string, units: seq<Unit>)

  datatype Branch = Branch(head: Section, kids: seq<Branch>)

  ghost predicate Extends(clause: string, above: string) {
    above + "." <= clause
  }

  lemma ExtendsTransitive(a: string, b: string, c: string)
    requires Extends(a, b) && Extends(b, c)
    ensures Extends(a, c)
  {
    assert |c + "."| <= |b + "."| && (c + ".") == b[..|c + "."|] == a[..|c + "."|];
  }

  ghost predicate Numbered(r: Reader, u: Unit) {
    u.kind == Heading && r.token(u.text).Some?
  }

  ghost predicate Skipped(r: Reader, u: Unit) {
    Numbered(r, u) && r.skip(r.title(u.text))
  }

  /** An unnumbered heading counts as a paragraph. */
  ghost function Folded(u: Unit): Unit {
    if u.kind == Heading then Unit(Paragraph, u.text) else u
  }

  // ----- The stack -----

  /** An open clause; a detached one is on the stack but in no list of children. */
  datatype Frame = Frame(head: Section, kids: seq<Branch>, attached: bool)

  /** The root's closed children, and the open clauses, outermost first. */
  datatype Stack = Stack(forest: seq<Branch>, frames: seq<Frame>)

  ghost function Top(s: Stack): Frame
    requires s.frames != []
  {
    s.frames[|s.frames| - 1]
  }

  ghost function Below(s: Stack): Stack
    requires s.frames != []
  {
    Stack(s.forest, s.frames[..|s.frames| - 1])
  }

  ghost function Push(s: Stack, f: Frame): Stack {
    Stack(s.forest, s.frames + [f])
  }

  /** The closed children of the innermost open clause. */
  ghost function Kids(s: Stack): seq<Branch> {
    if s.frames == [] then s.forest else Top(s).kids
  }

  ghost function AddKid(s: Stack, t: Branch): Stack {
    if s.frames == [] then Stack(s.forest + [t], []) else Push(Below(s), Top(s).(kids := Top(s).kids + [t]))
  }

  ghost function AddUnit(s: Stack, u: Unit): Stack {
    if s.frames == [] then s else Push(Below(s), Top(s).(head := Top(s).head.(units := Top(s).head.units + [u])))
  }

  ghost function Pop(s: Stack): (r: Stack)
    requires s.frames != []
    ensures |r.frames| == |s.frames| - 1
  {
    if Top(s).attached then AddKid(Below(s), Branch(Top(s).head, Top(s).kids)) else Below(s)
  }

  ghost function PopTo(s: Stack, clause: string): Stack
    decreases |s.frames|
  {
    if s.frames == [] || Extends(clause, Top(s).head.clause) then s else PopTo(Pop(s), clause)
  }

  ghost function CloseAll(s: Stack): seq<Branch>
    decreases |s.frames|
  {
    if s.frames == [] then s.forest else CloseAll(Pop(s))
  }

  /** What unit number i does to the stack. */
  ghost function Step(r: Reader, s: Stack, i: nat, u: Unit): Stack {
    if Numbered(r, u) then
      var head := Section(i, r.token(u.text).value, r.title(u.text), []);
      if r.skip(head.heading) then Push(s, Frame(head, [], false))
      else Push(PopTo(s, head.clause), Frame(head, [], true))
    else AddUnit(s, Folded(u))
  }

  ghost function After(r: Reader, units: seq<Unit>): Stack {
    if units == [] then Stack([], [])
    else Step(r, After(r, units[..|units| - 1]), |units| - 1, units[|units| - 1])
  }

  /** The clause tree: the root's children. */
  ghost function Clauses(r: Reader, units: seq<Unit>): seq<Branch> {
    CloseAll(After(r, units))
  }

  // ----- Pre-order -----

  ghost function Preorder(ts: seq<Branch>): seq<Section> {
    if ts == [] then []
    else Preorder(ts[..|ts| - 1]) + [ts[|ts| - 1].head] + Preorder(ts[|ts| - 1].kids)
  }

  lemma PreorderSnoc(ts: seq<Branch>, t: Branch)
    ensures Preorder(ts + [t]) == Preorder(ts) + [t.head] + Preorder(t.kids)
  {
    assert (ts + [t])[..|ts|] == ts;
  }

  /** The pre-order the stack would end in, were the document to end here. */
  ghost function Kept(s: Stack): seq<Section> {
    Preorder(CloseAll(s))
  }

  ghost predicate AllAttached(s: Stack) {
    forall k :: 0 <= k < |s.frames| ==> s.frames[k].attached
  }

  /** What is added to the innermost open clause comes last, unless a detached clause swallows it. */
  lemma {:induction false} KeptAdd(s: Stack, t: Branch)
    ensures Kept(AddKid(s, t)) == Kept(s) + if AllAttached(s) then [t.head] + Preorder(t.kids) else []
    decreases |s.frames|
  {
    hide Kept, Preorder, AllAttached, AddKid, Pop, Top, Below;
    if s.frames == [] {
      KeptAtRoot(s, t);
    } else {
      var top, below := Top(s), Below(s);
      PopsTo(s, t);
      if top.attached {
        PreorderSnoc(top.kids, t);
        KeptAdd(below, Branch(top.head, top.kids));
        KeptAdd(below, Branch(top.head, top.kids + [t]));
      }
    }
  }

  lemma KeptAtRoot(s: Stack, t: Branch)
    requires s.frames == []
    ensures Kept(AddKid(s, t)) == Kept(s) + [t.head] + Preorder(t.kids) && AllAttached(s)
  {
    PreorderSnoc(s.forest, t);
  }

  /** Closing the innermost clause, before and after something is added to it. */
  lemma PopsTo(s: Stack, t: Branch)
    requires s.frames != []
    ensures var top, below := Top(s), Below(s);
            && |below.frames| < |s.frames| && (AllAttached(s) <==> AllAttached(below) && top.attached)
            && Kept(s) == Kept(if top.attached then AddKid(below, Branch(top.head, top.kids)) else below)
            && Kept(AddKid(s, t)) ==
                 Kept(if top.attached then AddKid(below, Branch(top.head, top.kids + [t])) else below)
  {
    var top, below, added := Top(s), Below(s), AddKid(s, t);
    assert Below(added) == below && Top(added) == top.(kids := top.kids + [t]);
    hide AddKid, Preorder;
  }

  lemma KeptPush(s: Stack, f: Frame)
    requires f.kids == []
    ensures Kept(Push(s, f)) == Kept(s) + if f.attached && AllAttached(s) then [f.head] else []
  {
    assert Below(Push(s, f)) == s && Top(Push(s, f)) == f;
    KeptAdd(s, Branch(f.head, []));
  }

  lemma AttachedPush(s: Stack, f: Frame)
    ensures AllAttached(Push(s, f)) <==> AllAttached(s) && f.attached
    ensures Top(Push(s, f)) == f && Below(Push(s, f)) == s
  {
    var t := Push(s, f);
    assert t.frames[|s.frames|] == f;
    if AllAttached(t) {
      assert forall k :: 0 <= k < |s.frames| ==> t.frames[k] == s.frames[k];
    }
  }

  lemma KeptPopTo(s: Stack, clause: string)
    ensures Kept(PopTo(s, clause)) == Kept(s)
    decreases |s.frames|
  {
    if s.frames != [] && !Extends(clause, Top(s).head.clause) {
      KeptPopTo(Pop(s), clause);
    }
  }

  // ----- The shape of the tree -----

  /** The clause belongs below t: below its own clause or that of its last descendants. */
  ghost predicate Ends(t: Branch, clause: string) {
    Extends(clause, t.head.clause) || (t.kids != [] && Ends(t.kids[|t.kids| - 1], clause))
  }

  /** Each clause extends its parent's by a dot, and belongs below no earlier sibling. */
  ghost predicate Canonical(ts: seq<Branch>) {
    ts == [] || (
      var before, last := ts[..|ts| - 1], ts[|ts| - 1];
      && Canonical(before) && CanonicalTree(last)
      && (before != [] ==> !Ends(before[|before| - 1], last.head.clause)))
  }

  ghost predicate CanonicalTree(t: Branch) {
    Canonical(t.kids) && forall k :: 0 <= k < |t.kids| ==> Extends(t.kids[k].head.clause, t.head.clause)
  }

  ghost predicate NotBelowLast(ts: seq<Branch>, clause: string) {
    ts != [] ==> !Ends(ts[|ts| - 1], clause)
  }

  lemma CanonicalSnoc(ts: seq<Branch>, t: Branch)
    requires Canonical(ts) && CanonicalTree(t) && NotBelowLast(ts, t.head.clause)
    ensures Canonical(ts + [t])
  {
    assert (ts + [t])[..|ts|] == ts;
  }

  ghost predicate Shaped(s: Stack)
    decreases |s.frames|
  {
    if s.frames == [] then Canonical(s.forest)
    else
      var top, below := Top(s), Below(s);
      && Shaped(below) && CanonicalTree(Branch(top.head, top.kids))
      && if top.attached then
           && (below.frames != [] ==> Extends(top.head.clause, Top(below).head.clause))
           && NotBelowLast(Kids(below), top.head.clause)
         else Kids(below) == []
  }

  lemma ShapedAddKid(s: Stack, t: Branch)
    requires Shaped(s) && CanonicalTree(t) && NotBelowLast(Kids(s), t.head.clause)
    requires s.frames != [] ==> Extends(t.head.clause, Top(s).head.clause)
    ensures Shaped(AddKid(s, t)) && Kids(AddKid(s, t)) == Kids(s) + [t]
  {
    CanonicalSnoc(Kids(s), t);
    if s.frames != [] {
      assert Below(AddKid(s, t)) == Below(s);
    }
  }

  lemma ShapedPop(s: Stack)
    requires Shaped(s) && s.frames != []
    ensures Shaped(Pop(s))
    ensures Kids(Pop(s)) == if Top(s).attached then Kids(Below(s)) + [Branch(Top(s).head, Top(s).kids)] else []
  {
    if Top(s).attached {
      ShapedAddKid(Below(s), Branch(Top(s).head, Top(s).kids));
    }
  }

  lemma {:induction false} ShapedPopTo(s: Stack, clause: string)
    requires Shaped(s) && NotBelowLast(Kids(s), clause)
    ensures Shaped(PopTo(s, clause)) && NotBelowLast(Kids(PopTo(s, clause)), clause)
    ensures var t := PopTo(s, clause); t.frames != [] ==> Extends(clause, Top(t).head.clause)
    decreases |s.frames|
  {
    hide Shaped, AddKid, Pop, Canonical, CanonicalTree, Extends;
    if s.frames != [] && !Extends(clause, Top(s).head.clause) {
      ShapedPop(s);
      ShapedPopTo(Pop(s), clause);
    }
  }

  lemma {:induction false} ShapedCloseAll(s: Stack)
    requires Shaped(s)
    ensures Canonical(CloseAll(s))
    decreases |s.frames|
  {
    if s.frames != [] {
      ShapedPop(s);
      ShapedCloseAll(Pop(s));
    }
  }

  lemma ShapedPush(s: Stack, f: Frame)
    requires Shaped(s) && f.kids == []
    requires if f.attached then NotBelowLast(Kids(s), f.head.clause) else Kids(s) == []
    requires f.attached && s.frames != [] ==> Extends(f.head.clause, Top(s).head.clause)
    ensures Shaped(Push(s, f)) && Kids(Push(s, f)) == []
  {
    assert Below(Push(s, f)) == s && Top(Push(s, f)) == f;
  }

  lemma {:induction false} AfterIsShaped(r: Reader, units: seq<Unit>)
    ensures Shaped(After(r, units)) && Kids(After(r, units)) == []
  {
    if units != [] {
      var s, u := After(r, units[..|units| - 1]), units[|units| - 1];
      AfterIsShaped(r, units[..|units| - 1]);
      if Numbered(r, u) {
        var head := Section(|units| - 1, r.token(u.text).value, r.title(u.text), []);
        if r.skip(head.heading) {
          ShapedPush(s, Frame(head, [], false));
        } else {
          ShapedPopTo(s, head.clause);
          ShapedPush(PopTo(s, head.clause), Frame(head, [], true));
        }
      } else if s.frames != [] {
        var t := AddUnit(s, Folded(u));
        assert Below(t) == Below(s) && Top(t).kids == Top(s).kids;
      }
    }
  }

  /** The tree is canonical, whatever the headings. */
  lemma ClausesAreCanonical(r: Reader, units: seq<Unit>)
    ensures Canonical(Clauses(r, units))
  {
    AfterIsShaped(r, units);
    ShapedCloseAll(After(r, units));
  }

  // ----- A canonical tree is determined by its pre-order -----

  /** ts without the last clause of its pre-order. */
  ghost function DropLast(ts: seq<Branch>): seq<Branch>
    requires ts != []
  {
    var before, last := ts[..|ts| - 1], ts[|ts| - 1];
    if last.kids == [] then before else before + [Branch(last.head, DropLast(last.kids))]
  }

  ghost function LastOf(ts: seq<Branch>): Section
    requires ts != []
  {
    var last := ts[|ts| - 1];
    if last.kids == [] then last.head else LastOf(last.kids)
  }

  /** The place for one more clause: below the innermost of the last clauses that it extends. */
  ghost function Insert(ts: seq<Branch>, x: Section): seq<Branch> {
    if ts != [] && Ends(ts[|ts| - 1], x.clause) then
      var last := ts[|ts| - 1];
      ts[..|ts| - 1] + [Branch(last.head, Insert(last.kids, x))]
    else ts + [Branch(x, [])]
  }

  lemma {:induction false} LastComesLast(ts: seq<Branch>)
    requires ts != []
    ensures Preorder(ts) == Preorder(DropLast(ts)) + [LastOf(ts)]
  {
    var before, last := ts[..|ts| - 1], ts[|ts| - 1];
    if last.kids != [] {
      LastComesLast(last.kids);
      PreorderSnoc(before, Branch(last.head, DropLast(last.kids)));
    }
  }

  lemma {:induction false} LastExtends(ts: seq<Branch>, above: string)
    requires ts != [] && Canonical(ts)
    requires forall k :: 0 <= k < |ts| ==> Extends(ts[k].head.clause, above)
    ensures Extends(LastOf(ts).clause, above)
  {
    var last := ts[|ts| - 1];
    if last.kids != [] {
      LastExtends(last.kids, last.head.clause);
      ExtendsTransitive(LastOf(ts).clause, last.head.clause, above);
    }
  }

  lemma DropLastHeads(ts: seq<Branch>)
    requires ts != []
    ensures |DropLast(ts)| <= |ts|
    ensures forall k :: 0 <= k < |DropLast(ts)| ==> DropLast(ts)[k].head == ts[k].head
  {
  }

  lemma {:induction false} CanonicalGrows(ts: seq<Branch>)
    requires ts != [] && Canonical(ts)
    ensures ts == Insert(DropLast(ts), LastOf(ts)) && Canonical(DropLast(ts))
  {
    hide Extends;
    var before, last := ts[..|ts| - 1], ts[|ts| - 1];
    assert ts == before + [last];
    if last.kids == [] {
      assert last == Branch(last.head, []);
    } else {
      CanonicalGrows(last.kids);
      LastExtends(last.kids, last.head.clause);
      DropLastHeads(last.kids);
      var shorter := Branch(last.head, DropLast(last.kids));
      CanonicalSnoc(before, shorter);
      var dropped := before + [shorter];
      assert dropped[|dropped| - 1] == shorter && dropped[..|dropped| - 1] == before;
      assert Ends(shorter, LastOf(ts).clause);
    }
  }

  /** No two canonical trees have the same pre-order. */
  lemma {:induction false} CanonicalIsUnique(ts: seq<Branch>, us: seq<Branch>)
    requires Canonical(ts) && Canonical(us) && Preorder(ts) == Preorder(us)
    ensures ts == us
    decreases |Preorder(ts)|
  {
    hide Canonical, Insert, DropLast, LastOf;
    if ts != [] && us != [] {
      LastComesLast(ts);
      LastComesLast(us);
      CanonicalGrows(ts);
      CanonicalGrows(us);
      var p, q := Preorder(DropLast(ts)), Preorder(DropLast(us));
      assert (p + [LastOf(ts)])[..|p|] == p && (q + [LastOf(us)])[..|q|] == q;
      assert |p| == |q| && (p + [LastOf(ts)])[|p|] == (q + [LastOf(us)])[|p|];
      CanonicalIsUnique(DropLast(ts), DropLast(us));
    }
  }

  // ----- What the tree holds -----

  /** The units up to the next numbered heading. */
  ghost function Text(r: Reader, units: seq<Unit>): seq<Unit> {
    if units == [] || Numbered(r, units[0]) then [] else [Folded(units[0])] + Text(r, units[1..])
  }

  ghost predicate HasNumbered(r: Reader, units: seq<Unit>) {
    units != [] && (Numbered(r, units[0]) || HasNumbered(r, units[1..]))
  }

  lemma {:induction false} HasNumberedMeans(r: Reader, units: seq<Unit>)
    ensures HasNumbered(r, units) <==> exists i :: 0 <= i < |units| && Numbered(r, units[i])
  {
    if units != [] {
      HasNumberedMeans(r, units[1..]);
      if i :| 0 <= i < |units[1..]| && Numbered(r, units[1..][i]) {
        assert Numbered(r, units[i + 1]);
      }
      if i :| 0 < i < |units| && Numbered(r, units[i]) {
        assert units[1..][i - 1] == units[i];
      }
    }
  }

  lemma {:induction false} TextSnoc(r: Reader, units: seq<Unit>, u: Unit)
    ensures Text(r, units + [u]) ==
            if HasNumbered(r, units) || Numbered(r, u) then Text(r, units) else Text(r, units) + [Folded(u)]
    ensures HasNumbered(r, units + [u]) <==> HasNumbered(r, units) || Numbered(r, u)
  {
    if units == [] {
      assert units + [u] == [u] && [u][1..] == [];
    } else {
      assert (units + [u])[0] == units[0] && (units + [u])[1..] == units[1..] + [u];
      TextSnoc(r, units[1..], u);
    }
  }

  /** The section is the numbered heading at its position, with the text up to the next one. */
  ghost predicate Faithful(r: Reader, units: seq<Unit>, x: Section) {
    && Headed(r, units, x) && !Skipped(r, units[x.at])
    && x.units == Text(r, units[x.at + 1..])
  }

  ghost predicate Headed(r: Reader, units: seq<Unit>, x: Section) {
    && x.at < |units| && Numbered(r, units[x.at])
    && Some(x.clause) == r.token(units[x.at].text) && x.heading == r.title(units[x.at].text)
  }

  lemma FaithfulSnoc(r: Reader, units: seq<Unit>, u: Unit, x: Section)
    requires Faithful(r, units, x) && (Numbered(r, u) || HasNumbered(r, units[x.at + 1..]))
    ensures Faithful(r, units + [u], x)
  {
    assert (units + [u])[x.at + 1..] == units[x.at + 1..] + [u];
    TextSnoc(r, units[x.at + 1..], u);
  }

  /** Sections of the document, in document order. */
  ghost predicate Listed(r: Reader, units: seq<Unit>, xs: seq<Section>) {
    && (forall k :: 0 <= k < |xs| ==> Faithful(r, units, xs[k]))
    && (forall k, l :: 0 <= k < l < |xs| ==> xs[k].at < xs[l].at)
  }

  /** A numbered heading that is not skipped and extends no skipped heading before it. */
  ghost predicate Wanted(r: Reader, units: seq<Unit>, i: nat) {
    && i < |units| && Numbered(r, units[i]) && !Skipped(r, units[i])
    && forall j :: 0 <= j < i && Skipped(r, units[j]) ==>
         !Extends(r.token(units[i].text).value, r.token(units[j].text).value)
  }

  ghost predicate Complete(r: Reader, units: seq<Unit>, xs: seq<Section>) {
    forall i: nat :: Wanted(r, units, i) ==> exists k :: 0 <= k < |xs| && xs[k].at == i
  }

  /** The open clauses are headings; the innermost is the last numbered one, with its text so far. */
  ghost predicate Framed(r: Reader, units: seq<Unit>, s: Stack) {
    && (forall k :: 0 <= k < |s.frames| ==>
          Headed(r, units, s.frames[k].head) && (s.frames[k].attached <==> !Skipped(r, units[s.frames[k].head.at])))
    && if s.frames == [] then !HasNumbered(r, units)
       else !HasNumbered(r, units[Top(s).head.at + 1..]) && Top(s).head.units == Text(r, units[Top(s).head.at + 1..])
  }

  lemma FramesStay(s: Stack, clause: string)
    ensures |PopTo(s, clause).frames| <= |s.frames|
    ensures forall k :: 0 <= k < |PopTo(s, clause).frames| ==>
              PopTo(s, clause).frames[k].head == s.frames[k].head
              && PopTo(s, clause).frames[k].attached == s.frames[k].attached
    decreases |s.frames|
  {
    if s.frames != [] && !Extends(clause, Top(s).head.clause) {
      FramesStay(Pop(s), clause);
    }
  }

  lemma {:induction false} BelowDetached(s: Stack, clause: string)
    requires Shaped(s) && !AllAttached(s) && Extends(clause, Top(s).head.clause)
    ensures exists k :: 0 <= k < |s.frames| && !s.frames[k].attached && Extends(clause, s.frames[k].head.clause)
    decreases |s.frames|
  {
    hide Extends;
    if Top(s).attached {
      var below := Below(s);
      assert !AllAttached(below) && below.frames != [];
      ExtendsTransitive(clause, Top(s).head.clause, Top(below).head.clause);
      BelowDetached(below, clause);
      var k :| 0 <= k < |below.frames| && !below.frames[k].attached && Extends(clause, below.frames[k].head.clause);
      assert s.frames[k] == below.frames[k];
    }
  }

  ghost predicate Told(r: Reader, units: seq<Unit>, s: Stack) {
    && Framed(r, units, s) && Listed(r, units, Kept(s)) && Complete(r, units, Kept(s))
    && (s.frames != [] && !AllAttached(s) ==>
          forall k :: 0 <= k < |Kept(s)| ==> Kept(s)[k].at < Top(s).head.at)
    && (s.frames != [] && AllAttached(s) ==>
          Kept(s) != [] && Kept(s)[|Kept(s)| - 1] == Top(s).head)
  }

  lemma {:induction false} AfterIsTold(r: Reader, units: seq<Unit>)
    ensures Told(r, units, After(r, units))
  {
    if units != [] {
      var before, u := units[..|units| - 1], units[|units| - 1];
      assert units == before + [u];
      AfterIsTold(r, before);
      AfterIsShaped(r, before);
      if Skipped(r, u) {
        ToldSkip(r, before, u, After(r, before));
      } else if Numbered(r, u) {
        ToldPush(r, before, u, After(r, before));
      } else {
        ToldUnit(r, before, u, After(r, before));
      }
    }
  }

  lemma CompleteSnoc(r: Reader, units: seq<Unit>, u: Unit, xs: seq<Section>)
    requires Complete(r, units, xs)
    ensures forall i: nat :: i < |units| && Wanted(r, units + [u], i) ==> exists k :: 0 <= k < |xs| && xs[k].at == i
  {
    var longer := units + [u];
    forall i: nat | i < |units| && Wanted(r, longer, i)
      ensures exists k :: 0 <= k < |xs| && xs[k].at == i
    {
      assert longer[i] == units[i];
      forall j | 0 <= j < i && Skipped(r, units[j])
        ensures !Extends(r.token(units[i].text).value, r.token(units[j].text).value)
      {
        assert longer[j] == units[j];
      }
      assert Wanted(r, units, i);
    }
  }

  lemma ListedSnoc(r: Reader, units: seq<Unit>, u: Unit, xs: seq<Section>)
    requires Listed(r, units, xs) && Numbered(r, u)
    ensures Listed(r, units + [u], xs)
  {
    forall k | 0 <= k < |xs|
      ensures Faithful(r, units + [u], xs[k])
    {
      FaithfulSnoc(r, units, u, xs[k]);
    }
  }

  lemma FramedPush(r: Reader, units: seq<Unit>, u: Unit, s: Stack, t: Stack, f: Frame)
    requires Framed(r, units, s) && |t.frames| <= |s.frames|
    requires forall k :: 0 <= k < |t.frames| ==>
               t.frames[k].head == s.frames[k].head && t.frames[k].attached == s.frames[k].attached
    requires Numbered(r, u) && f.head == Section(|units|, r.token(u.text).value, r.title(u.text), [])
    requires f.attached <==> !Skipped(r, u)
    ensures Framed(r, units + [u], Push(t, f))
  {
    assert (units + [u])[|units| + 1..] == [];
  }

  lemma ToldSkip(r: Reader, units: seq<Unit>, u: Unit, s: Stack)
    requires Told(r, units, s) && Shaped(s) && Kids(s) == [] && Skipped(r, u)
    ensures Told(r, units + [u], Step(r, s, |units|, u))
  {
    hide Told, Framed, Listed, Complete, Kept, Shaped, PopTo, Step, AllAttached, Extends;
    var f := Frame(Section(|units|, r.token(u.text).value, r.title(u.text), []), [], false);
    var kept := Kept(s);
    ToldParts(r, units, s);
    FramedPush(r, units, u, s, s, f);
    KeptPush(s, f);
    assert kept + [] == kept;
    ListedSnoc(r, units, u, kept);
    ListedBefore(r, units, kept);
    CompleteSkip(r, units, u, kept);
    AttachedPush(s, f);
    StepSkips(r, units, u, s);
    ToldParts(r, units + [u], Push(s, f));
  }

  lemma StepSkips(r: Reader, units: seq<Unit>, u: Unit, s: Stack)
    requires Skipped(r, u)
    ensures Step(r, s, |units|, u) ==
            Push(s, Frame(Section(|units|, r.token(u.text).value, r.title(u.text), []), [], false))
  {
  }

  lemma CompleteSkip(r: Reader, units: seq<Unit>, u: Unit, xs: seq<Section>)
    requires Complete(r, units, xs) && Skipped(r, u)
    ensures Complete(r, units + [u], xs)
  {
    CompleteSnoc(r, units, u, xs);
    assert (units + [u])[|units|] == u;
  }

  lemma ListedPush(r: Reader, units: seq<Unit>, u: Unit, xs: seq<Section>, head: Section)
    requires Listed(r, units, xs) && Numbered(r, u) && !Skipped(r, u)
    requires head == Section(|units|, r.token(u.text).value, r.title(u.text), [])
    ensures Listed(r, units + [u], xs + [head])
  {
    ListedSnoc(r, units, u, xs);
    assert (units + [u])[|units| + 1..] == [];
    assert Faithful(r, units + [u], head);
    hide Faithful;
  }

  lemma CompletePush(r: Reader, units: seq<Unit>, u: Unit, xs: seq<Section>, head: Section)
    requires Complete(r, units, xs) && head.at == |units|
    ensures Complete(r, units + [u], xs + [head])
    ensures !Wanted(r, units + [u], |units|) ==> Complete(r, units + [u], xs)
  {
    CompleteSnoc(r, units, u, xs);
    forall i: nat | Wanted(r, units + [u], i)
      ensures exists k :: 0 <= k < |xs + [head]| && (xs + [head])[k].at == i
    {
      if i < |units| {
        var k :| 0 <= k < |xs| && xs[k].at == i;
        assert (xs + [head])[k] == xs[k];
      } else {
        assert (xs + [head])[|xs|] == head;
      }
    }
  }

  lemma ToldPush(r: Reader, units: seq<Unit>, u: Unit, s: Stack)
    requires Told(r, units, s) && Shaped(s) && Kids(s) == [] && Numbered(r, u) && !Skipped(r, u)
    ensures Told(r, units + [u], Step(r, s, |units|, u))
  {
    hide Told, Framed, Listed, Complete, Kept, Shaped, PopTo, Step, AllAttached, Wanted, Extends;
    var clause := r.token(u.text).value;
    var f := Frame(Section(|units|, clause, r.title(u.text), []), [], true);
    var t := PopTo(s, clause);
    ToldParts(r, units, s);
    FramesStay(s, clause);
    FramedPush(r, units, u, s, t, f);
    KeptPopTo(s, clause);
    KeptPush(t, f);
    var kept := Kept(s);
    ListedPush(r, units, u, kept, f.head);
    ListedSnoc(r, units, u, kept);
    CompletePush(r, units, u, kept, f.head);
    ShapedPopTo(s, clause);
    AttachedPush(t, f);
    if !AllAttached(t) {
      NoFramesAttached(t);
      BelowDetached(t, clause);
      NotWanted(r, units, u, s, t);
      ListedBefore(r, units, kept);
      assert kept + [] == kept;
    }
    StepPushes(r, units, u, s);
    ToldParts(r, units + [u], Push(t, f));
  }

  lemma StepPushes(r: Reader, units: seq<Unit>, u: Unit, s: Stack)
    requires Numbered(r, u) && !Skipped(r, u)
    ensures var clause := r.token(u.text).value;
            Step(r, s, |units|, u) ==
            Push(PopTo(s, clause), Frame(Section(|units|, clause, r.title(u.text), []), [], true))
  {
  }

  lemma NoFramesAttached(s: Stack)
    ensures !AllAttached(s) ==> s.frames != []
  {
  }

  lemma ToldParts(r: Reader, units: seq<Unit>, s: Stack)
    ensures Told(r, units, s) <==>
            && Framed(r, units, s) && Listed(r, units, Kept(s)) && Complete(r, units, Kept(s))
            && (s.frames != [] && !AllAttached(s) ==>
                  forall k :: 0 <= k < |Kept(s)| ==> Kept(s)[k].at < Top(s).head.at)
            && (s.frames != [] && AllAttached(s) ==>
                  Kept(s) != [] && Kept(s)[|Kept(s)| - 1] == Top(s).head)
  {
  }

  lemma ListedBefore(r: Reader, units: seq<Unit>, xs: seq<Section>)
    requires Listed(r, units, xs)
    ensures forall k :: 0 <= k < |xs| ==> xs[k].at < |units|
  {
    assert forall k :: 0 <= k < |xs| ==> Faithful(r, units, xs[k]);
  }

  lemma NotWanted(r: Reader, units: seq<Unit>, u: Unit, s: Stack, t: Stack)
    requires Framed(r, units, s) && Numbered(r, u) && |t.frames| <= |s.frames|
    requires forall k :: 0 <= k < |t.frames| ==>
               t.frames[k].head == s.frames[k].head && t.frames[k].attached == s.frames[k].attached
    requires exists k :: 0 <= k < |t.frames| && !t.frames[k].attached
                         && Extends(r.token(u.text).value, t.frames[k].head.clause)
    ensures !Wanted(r, units + [u], |units|)
  {
    var k :| 0 <= k < |t.frames| && !t.frames[k].attached && Extends(r.token(u.text).value, t.frames[k].head.clause);
    var j := s.frames[k].head.at;
    assert Headed(r, units, s.frames[k].head);
    assert (units + [u])[j] == units[j] && Skipped(r, units[j]) && (units + [u])[|units|] == u;
  }

  lemma ToldUnit(r: Reader, units: seq<Unit>, u: Unit, s: Stack)
    requires Told(r, units, s) && Shaped(s) && Kids(s) == [] && !Numbered(r, u)
    ensures Told(r, units + [u], Step(r, s, |units|, u))
  {
    hide Kept, Faithful, Wanted, Shaped, Listed, Complete, Extends;
    var kept := Kept(s);
    if s.frames == [] {
      NoneListed(r, units, kept);
      TextSnoc(r, units, u);
      CompleteUnit(r, units, u, kept, kept);
    } else {
      FramedUnit(r, units, u, s);
      var top, below := Top(s), Below(s);
      var grown := top.(head := top.head.(units := top.head.units + [Folded(u)]));
      assert s == Push(below, top);
      KeptPush(below, top);
      KeptPush(below, grown);
      AttachedPush(below, top);
      AttachedPush(below, grown);
      hide AllAttached;
      assert AddUnit(s, Folded(u)) == Push(below, grown);
      var older := Kept(below);
      if AllAttached(s) {
        assert Headed(r, units, top.head);
        ListedGrown(r, units, u, older, top.head);
        CompleteUnit(r, units, u, kept, older + [grown.head]);
      } else {
        ListedOlder(r, units, u, kept, top.head.at);
        CompleteUnit(r, units, u, kept, kept);
      }
    }
  }

  lemma NoneListed(r: Reader, units: seq<Unit>, xs: seq<Section>)
    requires Listed(r, units, xs) && !HasNumbered(r, units)
    ensures xs == [] && forall u :: Listed(r, units + [u], xs)
  {
    HasNumberedMeans(r, units);
    assert xs != [] ==> Faithful(r, units, xs[0]);
  }

  lemma ListedOlder(r: Reader, units: seq<Unit>, u: Unit, xs: seq<Section>, at: nat)
    requires Listed(r, units, xs) && at < |units| && Numbered(r, units[at])
    requires forall k :: 0 <= k < |xs| ==> xs[k].at < at
    ensures Listed(r, units + [u], xs)
  {
    forall k | 0 <= k < |xs|
      ensures Faithful(r, units + [u], xs[k])
    {
      var x := xs[k];
      assert Faithful(r, units, x);
      assert units[x.at + 1..][at - x.at - 1] == units[at];
      HasNumberedMeans(r, units[x.at + 1..]);
      FaithfulSnoc(r, units, u, x);
    }
  }

  lemma ListedGrown(r: Reader, units: seq<Unit>, u: Unit, older: seq<Section>, head: Section)
    requires Listed(r, units, older + [head]) && !Numbered(r, u)
    requires head.at < |units| && !HasNumbered(r, units[head.at + 1..])
    ensures Listed(r, units + [u], older + [head.(units := head.units + [Folded(u)])])
  {
    hide Text, HasNumbered;
    var xs := older + [head];
    assert xs[|older|] == head && Faithful(r, units, head);
    assert Listed(r, units, older) && forall k :: 0 <= k < |older| ==> older[k].at < head.at by {
      assert forall k :: 0 <= k < |older| ==> xs[k] == older[k];
    }
    ListedOlder(r, units, u, older, head.at);
    assert (units + [u])[head.at + 1..] == units[head.at + 1..] + [u];
    TextSnoc(r, units[head.at + 1..], u);
    assert Faithful(r, units + [u], head.(units := head.units + [Folded(u)]));
    hide Faithful;
  }

  lemma CompleteUnit(r: Reader, units: seq<Unit>, u: Unit, xs: seq<Section>, ys: seq<Section>)
    requires Complete(r, units, xs) && !Numbered(r, u)
    requires |xs| == |ys| && forall k :: 0 <= k < |xs| ==> xs[k].at == ys[k].at
    ensures Complete(r, units + [u], ys)
  {
    CompleteSnoc(r, units, u, xs);
    forall i: nat | Wanted(r, units + [u], i)
      ensures exists k :: 0 <= k < |ys| && ys[k].at == i
    {
      var k :| 0 <= k < |xs| && xs[k].at == i;
      assert ys[k].at == i;
    }
  }

  lemma FramedUnit(r: Reader, units: seq<Unit>, u: Unit, s: Stack)
    requires Framed(r, units, s) && s.frames != [] && !Numbered(r, u)
    ensures Framed(r, units + [u], AddUnit(s, Folded(u)))
  {
    hide Text, HasNumbered;
    var at, t := Top(s).head.at, AddUnit(s, Folded(u));
    assert Headed(r, units, Top(s).head);
    assert (units + [u])[at + 1..] == units[at + 1..] + [u];
    TextSnoc(r, units[at + 1..], u);
    forall k | 0 <= k < |s.frames|
      ensures Headed(r, units + [u], t.frames[k].head)
      ensures t.frames[k].attached <==> !Skipped(r, (units + [u])[t.frames[k].head.at])
    {
      HeadStays(r, units, u, s.frames[k].head, t.frames[k].head);
    }
    hide Headed, Skipped;
  }

  lemma HeadStays(r: Reader, units: seq<Unit>, u: Unit, x: Section, y: Section)
    requires Headed(r, units, x) && y.at == x.at && y.clause == x.clause && y.heading == x.heading
    ensures Headed(r, units + [u], y) && (units + [u])[y.at] == units[x.at]
  {
  }

  // ----- Which headings are in the tree -----

  /** Heading j has a number that the clause of heading i extends. */
  ghost predicate ExtendedBy(r: Reader, units: seq<Unit>, j: nat, i: nat)
    requires j < |units| && i < |units| && Numbered(r, units[i])
  {
    Numbered(r, units[j]) && Extends(r.token(units[i].text).value, r.token(units[j].text).value)
  }

  /** Heading j is open once n units are read. It is opened by itself, and a later heading that is not skipped
      closes it unless it extends j or an open heading after j. */
  ghost predicate OpenAfter(r: Reader, units: seq<Unit>, j: nat, n: nat)
    requires n <= |units|
    decreases n
  {
    && j < n
    && if j == n - 1 then Numbered(r, units[j])
       else
         var i := n - 1;
         && OpenAfter(r, units, j, i)
         && (Numbered(r, units[i]) && !Skipped(r, units[i]) ==>
               exists k: nat :: j <= k < i && OpenAfter(r, units, k, i) && ExtendedBy(r, units, k, i))
  }

  /** A numbered heading that is not skipped and leaves no skipped heading open. */
  ghost predicate Placed(r: Reader, units: seq<Unit>, i: nat) {
    && i < |units| && Numbered(r, units[i]) && !Skipped(r, units[i])
    && forall j: nat :: j < i && Skipped(r, units[j]) ==> !OpenAfter(r, units, j, i + 1)
  }

  ghost predicate HasFrame(s: Stack, j: nat) {
    exists k :: 0 <= k < |s.frames| && s.frames[k].head.at == j
  }

  /** The open clauses are the open headings, in document order. */
  ghost predicate Holds(r: Reader, units: seq<Unit>, n: nat, s: Stack)
    requires n <= |units|
  {
    && (forall k :: 0 <= k < |s.frames| ==> FrameOf(r, units, n, s.frames[k]))
    && (forall k, l :: 0 <= k < l < |s.frames| ==> s.frames[k].head.at < s.frames[l].head.at)
    && (forall j: nat :: HasFrame(s, j) <==> OpenAfter(r, units, j, n))
  }

  ghost predicate FrameOf(r: Reader, units: seq<Unit>, n: nat, f: Frame)
    requires n <= |units|
  {
    && f.head.at < n && Headed(r, units, f.head)
    && (f.attached <==> !Skipped(r, units[f.head.at]))
  }

  lemma PopToStops(s: Stack, clause: string)
    ensures var t := PopTo(s, clause);
            && (t.frames != [] ==> Extends(clause, Top(t).head.clause))
            && |t.frames| <= |s.frames|
            && forall k :: |t.frames| <= k < |s.frames| ==> !Extends(clause, s.frames[k].head.clause)
    decreases |s.frames|
  {
    FramesStay(s, clause);
    if s.frames != [] && !Extends(clause, Top(s).head.clause) {
      PopToStops(Pop(s), clause);
      FramesStay(Pop(s), clause);
      PopKeeps(s);
    }
  }

  lemma PopKeeps(s: Stack)
    requires s.frames != []
    ensures forall k :: 0 <= k < |s.frames| - 1 ==>
              Pop(s).frames[k].head == s.frames[k].head && Pop(s).frames[k].attached == s.frames[k].attached
  {
  }

  /** What is left open when heading i is read is what the stack is popped to. */
  lemma OpenIsPopped(r: Reader, units: seq<Unit>, i: nat, s: Stack, j: nat)
    requires i < |units| && Holds(r, units, i, s) && Numbered(r, units[i]) && !Skipped(r, units[i]) && j < i
    ensures OpenAfter(r, units, j, i + 1) <==> HasFrame(PopTo(s, r.token(units[i].text).value), j)
  {
    hide PopTo, Extends, Holds;
    var t := PopTo(s, r.token(units[i].text).value);
    if HasFrame(t, j) {
      PoppedIsOpen(r, units, i, s, j);
    }
    if OpenAfter(r, units, j, i + 1) {
      var k: nat :| j <= k < i && OpenAfter(r, units, k, i) && ExtendedBy(r, units, k, i);
      OpenIsKept(r, units, i, s, j, k);
    }
    hide ExtendedBy, HasFrame;
  }

  lemma PoppedIsOpen(r: Reader, units: seq<Unit>, i: nat, s: Stack, j: nat)
    requires i < |units| && Holds(r, units, i, s) && Numbered(r, units[i])
    requires HasFrame(PopTo(s, r.token(units[i].text).value), j)
    ensures j < i && OpenAfter(r, units, j, i)
    ensures exists k: nat :: j <= k < i && OpenAfter(r, units, k, i) && ExtendedBy(r, units, k, i)
  {
    hide PopTo, Extends, OpenAfter;
    var clause := r.token(units[i].text).value;
    var t := PopTo(s, clause);
    FramesStay(s, clause);
    PopToStops(s, clause);
    var k :| 0 <= k < |t.frames| && t.frames[k].head.at == j;
    var m := |t.frames| - 1;
    assert FrameOf(r, units, i, s.frames[k]) && FrameOf(r, units, i, s.frames[m]);
    assert HasFrame(s, s.frames[m].head.at) && HasFrame(s, s.frames[k].head.at);
    assert ExtendedBy(r, units, s.frames[m].head.at, i);
  }

  lemma OpenIsKept(r: Reader, units: seq<Unit>, i: nat, s: Stack, j: nat, k: nat)
    requires i < |units| && Holds(r, units, i, s) && Numbered(r, units[i]) && j <= k < i
    requires OpenAfter(r, units, j, i) && OpenAfter(r, units, k, i) && ExtendedBy(r, units, k, i)
    ensures HasFrame(PopTo(s, r.token(units[i].text).value), j)
  {
    hide PopTo, Extends, OpenAfter;
    var clause := r.token(units[i].text).value;
    var t := PopTo(s, clause);
    FramesStay(s, clause);
    PopToStops(s, clause);
    assert HasFrame(s, j) && HasFrame(s, k);
    var a :| 0 <= a < |s.frames| && s.frames[a].head.at == j;
    var b :| 0 <= b < |s.frames| && s.frames[b].head.at == k;
    assert FrameOf(r, units, i, s.frames[b]);
    assert a <= b < |t.frames|;
    assert t.frames[a].head.at == j;
  }

  lemma HoldsUnit(r: Reader, units: seq<Unit>, i: nat, s: Stack)
    requires i < |units| && Holds(r, units, i, s) && !Numbered(r, units[i])
    ensures Holds(r, units, i + 1, AddUnit(s, Folded(units[i])))
  {
    var t := AddUnit(s, Folded(units[i]));
    forall j: nat
      ensures HasFrame(t, j) <==> OpenAfter(r, units, j, i + 1)
    {
      assert forall k :: 0 <= k < |s.frames| ==> t.frames[k].head.at == s.frames[k].head.at;
      assert HasFrame(t, j) <==> HasFrame(s, j);
      assert HasFrame(s, j) ==> j < i;
    }
  }

  lemma HoldsPush(r: Reader, units: seq<Unit>, i: nat, s: Stack)
    requires i < |units| && Holds(r, units, i, s) && Numbered(r, units[i])
    ensures Holds(r, units, i + 1, Step(r, s, i, units[i]))
  {
    hide PopTo, Extends;
    var clause := r.token(units[i].text).value;
    var t := if Skipped(r, units[i]) then s else PopTo(s, clause);
    FramesStay(s, clause);
    var f := Frame(Section(i, clause, r.title(units[i].text), []), [], !Skipped(r, units[i]));
    assert Step(r, s, i, units[i]) == Push(t, f);
    var u := Push(t, f);
    assert u.frames[|t.frames|] == f && forall k :: 0 <= k < |t.frames| ==> u.frames[k] == t.frames[k];
    assert forall k :: 0 <= k < |t.frames| ==> FrameOf(r, units, i, s.frames[k]);
    forall j: nat
      ensures HasFrame(u, j) <==> OpenAfter(r, units, j, i + 1)
    {
      assert HasFrame(u, j) <==> HasFrame(t, j) || j == i;
      if j < i && !Skipped(r, units[i]) {
        OpenIsPopped(r, units, i, s, j);
      }
      assert HasFrame(s, j) <==> OpenAfter(r, units, j, i);
    }
  }

  lemma {:induction false} FramesAreOpen(r: Reader, units: seq<Unit>, n: nat)
    requires n <= |units|
    ensures Holds(r, units, n, After(r, units[..n]))
  {
    if n > 0 {
      var i := n - 1;
      TakeSnoc(units, i);
      FramesAreOpen(r, units, i);
      if Numbered(r, units[i]) {
        HoldsPush(r, units, i, After(r, units[..i]));
      } else {
        HoldsUnit(r, units, i, After(r, units[..i]));
      }
      hide Holds, Step;
    }
  }

  lemma PlacedIsAttached(r: Reader, units: seq<Unit>, i: nat)
    requires i < |units| && Numbered(r, units[i]) && !Skipped(r, units[i])
    ensures Placed(r, units, i) <==> AllAttached(PopTo(After(r, units[..i]), r.token(units[i].text).value))
  {
    hide PopTo, Extends, After;
    var clause, s := r.token(units[i].text).value, After(r, units[..i]);
    var t := PopTo(s, clause);
    FramesAreOpen(r, units, i);
    FramesStay(s, clause);
    assert forall k :: 0 <= k < |t.frames| ==> FrameOf(r, units, i, s.frames[k]);
    forall j: nat | j < i
      ensures OpenAfter(r, units, j, i + 1) <==> HasFrame(t, j)
    {
      OpenIsPopped(r, units, i, s, j);
    }
    hide OpenAfter, Holds, Headed;
    if Placed(r, units, i) {
      forall k | 0 <= k < |t.frames|
        ensures t.frames[k].attached
      {
        assert HasFrame(t, t.frames[k].head.at);
      }
    } else {
      var j: nat :| j < i && Skipped(r, units[j]) && OpenAfter(r, units, j, i + 1);
      assert HasFrame(t, j);
      var k :| 0 <= k < |t.frames| && t.frames[k].head.at == j;
      assert !t.frames[k].attached;
    }
  }

  ghost predicate Lists(xs: seq<Section>, i: nat) {
    exists k :: 0 <= k < |xs| && xs[k].at == i
  }

  lemma ListsSnoc(xs: seq<Section>, x: Section, i: nat)
    ensures Lists(xs + [x], i) <==> Lists(xs, i) || x.at == i
  {
    assert (xs + [x])[|xs|] == x;
    if Lists(xs, i) {
      var k :| 0 <= k < |xs| && xs[k].at == i;
      assert (xs + [x])[k] == xs[k];
    }
  }

  /** Exactly the placed headings are kept. */
  lemma {:induction false} PlacedAreKept(r: Reader, units: seq<Unit>, i: nat)
    ensures Lists(Kept(After(r, units)), i) <==> Placed(r, units, i)
  {
    hide Placed, PopTo, Step, Kept, Lists;
    if units == [] {
      NothingPlaced(r, i);
    } else {
      var before, u := units[..|units| - 1], units[|units| - 1];
      assert units == before + [u];
      PlacedAreKept(r, before, i);
      AfterIsShaped(r, before);
      KeptGrows(r, After(r, before), |before|, u, i);
      PlacedGrows(r, before, u, i);
    }
  }

  lemma NothingPlaced(r: Reader, i: nat)
    ensures !Lists(Kept(After(r, [])), i) && !Placed(r, [], i)
  {
    assert Kept(After(r, [])) == [];
  }

  lemma PlacedGrows(r: Reader, before: seq<Unit>, u: Unit, i: nat)
    ensures Placed(r, before + [u], i) <==>
            || Placed(r, before, i)
            || (i == |before| && Numbered(r, u) && !Skipped(r, u)
                && AllAttached(PopTo(After(r, before), r.token(u.text).value)))
  {
    hide OpenAfter, PopTo, AllAttached, After;
    var units := before + [u];
    assert units[..|before|] == before;
    if i < |before| {
      PlacedEarlier(r, before, u, i);
    } else if i == |before| && Numbered(r, u) && !Skipped(r, u) {
      PlacedIsAttached(r, units, i);
    }
  }

  lemma PlacedEarlier(r: Reader, units: seq<Unit>, u: Unit, i: nat)
    requires i < |units|
    ensures Placed(r, units, i) <==> Placed(r, units + [u], i)
  {
    hide OpenAfter, PopTo, AllAttached, After;
    var longer := units + [u];
    assert longer[i] == units[i] && longer[..i] == units[..i];
    if Numbered(r, units[i]) && !Skipped(r, units[i]) {
      PlacedIsAttached(r, units, i);
      PlacedIsAttached(r, longer, i);
    }
  }

  /** One unit lists its own position, if it is placed, and no other. */
  lemma KeptGrows(r: Reader, s: Stack, n: nat, u: Unit, i: nat)
    requires Kids(s) == []
    ensures Lists(Kept(Step(r, s, n, u)), i) <==>
            || Lists(Kept(s), i)
            || (i == n && Numbered(r, u) && !Skipped(r, u) && AllAttached(PopTo(s, r.token(u.text).value)))
  {
    hide Kept, PopTo, Extends;
    if Numbered(r, u) {
      var head := Section(n, r.token(u.text).value, r.title(u.text), []);
      KeptPush(s, Frame(head, [], false));
      KeptPopTo(s, head.clause);
      KeptPush(PopTo(s, head.clause), Frame(head, [], true));
      ListsSnoc(Kept(s), head, i);
      assert Kept(s) + [] == Kept(s);
    } else if s.frames != [] {
      var top, below := Top(s), Below(s);
      var grown := top.(head := top.head.(units := top.head.units + [Folded(u)]));
      assert s == Push(below, top) && AddUnit(s, Folded(u)) == Push(below, grown);
      KeptPush(below, top);
      KeptPush(below, grown);
      ListsSnoc(Kept(below), top.head, i);
      ListsSnoc(Kept(below), grown.head, i);
      assert Kept(below) + [] == Kept(below);
    }
  }

  /** The tree is canonical, its pre-order is the document's order, each clause has its own heading and
      text, exactly the placed headings are there, and among them every one that keeps clear of the skipped headings. */
  lemma TreeIsTheDocument(r: Reader, units: seq<Unit>)
    ensures Canonical(Clauses(r, units))
    ensures Listed(r, units, Preorder(Clauses(r, units)))
    ensures forall i: nat :: Lists(Preorder(Clauses(r, units)), i) <==> Placed(r, units, i)
    ensures Complete(r, units, Preorder(Clauses(r, units)))
  {
    ClausesAreCanonical(r, units);
    AfterIsTold(r, units);
    forall i: nat
      ensures Lists(Preorder(Clauses(r, units)), i) <==> Placed(r, units, i)
    {
      PlacedAreKept(r, units, i);
    }
  }

  /** That says which tree it is. */
  lemma OnlyTree(r: Reader, units: seq<Unit>, ts: seq<Branch>)
    requires Canonical(ts) && Listed(r, units, Preorder(ts))
    requires forall i: nat :: Lists(Preorder(ts), i) <==> Placed(r, units, i)
    ensures ts == Clauses(r, units)
  {
    hide Preorder, Canonical, Clauses, Faithful, Text, Placed, Lists;
    TreeIsTheDocument(r, units);
    var xs, ys := Preorder(ts), Preorder(Clauses(r, units));
    assert forall i: nat :: Lists(xs, i) <==> Lists(ys, i);
    SamePositions(r, units, xs, ys);
    SamePositions(r, units, ys, xs);
    IncreasingUnique(Positions(xs), Positions(ys));
    forall k | 0 <= k < |xs|
      ensures xs[k] == ys[k]
    {
      assert xs[k].at == Positions(xs)[k] == ys[k].at;
      FaithfulIsUnique(r, units, xs[k], ys[k]);
    }
    CanonicalIsUnique(ts, Clauses(r, units));
  }

  ghost function Positions(xs: seq<Section>): (ats: seq<nat>)
    ensures |ats| == |xs| && forall k :: 0 <= k < |xs| ==> ats[k] == xs[k].at
  {
    if xs == [] then [] else Positions(xs[..|xs| - 1]) + [xs[|xs| - 1].at]
  }

  lemma FaithfulIsUnique(r: Reader, units: seq<Unit>, x: Section, y: Section)
    requires Faithful(r, units, x) && Faithful(r, units, y) && x.at == y.at
    ensures x == y
  {
  }

  lemma SamePositions(r: Reader, units: seq<Unit>, xs: seq<Section>, ys: seq<Section>)
    requires Listed(r, units, xs) && forall i: nat :: Lists(xs, i) ==> Lists(ys, i)
    ensures Increasing(Positions(xs)) && forall i :: i in Positions(xs) ==> i in Positions(ys)
  {
    forall i | i in Positions(xs)
      ensures i in Positions(ys)
    {
      var k :| 0 <= k < |xs| && Positions(xs)[k] == i;
      assert Lists(xs, i) && Lists(ys, i);
      var l :| 0 <= l < |ys| && ys[l].at == i;
      assert Positions(ys)[l] == i;
    }
  }
}
