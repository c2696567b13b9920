/** The blast radius of a change, from a decoded capture (impact/impact/capture.py:160-376). */
module Impact {
  import opened Common
  import opened Dicts
  import opened StableSort
  import opened Strings

  /** "" stands for an address that is missing. */
  datatype Message = Message(name: string, src: string, dst: string, request: bool)

  datatype Procedure = Procedure(kind: string, outcome: string, flowId: Option<int>)

  datatype Flow = Flow(messages: seq<Message>, procedures: seq<Procedure>, flowId: Option<int>, sbiRefs: seq<int>)

  datatype Plane = N4 | Sbi

  datatype Section = Section(messages: seq<Message>, procedures: seq<Procedure>)

  datatype Capture = Capture(path: Option<string>, present: bool, flows: seq<Flow>, n4: Section, sbi: Section)

  /** A JSON pointer into the capture. */
  datatype Pointer =
    | FlowMessage(flow: nat, index: nat)
    | PlaneMessage(plane: Plane, index: nat)
    | FlowProcedure(flow: nat, index: nat)
    | PlaneProcedure(plane: Plane, index: nat)

  /** How names read: a role in upper case, the producer an SBI name gives away, and the two PFCP requests. */
  datatype Reading = Reading(upper: string -> string, producer: string -> Option<string>,
                             association: string -> bool, establishment: string -> bool)

  datatype Role = Role(role: string, ip: string, evidence: Pointer)

  datatype Hit = Hit(pointer: Pointer, kind: string, outcome: string)

  datatype Stats = Stats(count: nat, successes: nat, failures: nat)

  datatype AffectedNF = AffectedNF(role: string, ip: string, evidence: Pointer, procedures: seq<Hit>, kpis: Stats)

  datatype BlastResult = BlastResult(target: Option<Role>, affected: seq<AffectedNF>,
                                     unknownPeers: nat, unknownPointers: seq<Pointer>)

  predicate Consulted(c: Capture) {
    c.path.Some? && c.present
  }

  // ----- Roles -----

  function AddRole(roles: seq<Role>, role: string, ip: string, evidence: Pointer): seq<Role> {
    if ip != "" && forall k :: 0 <= k < |roles| ==> roles[k].role != role || roles[k].ip != ip
    then roles + [Role(role, ip, evidence)]
    else roles
  }

  /** The first message of the flows with the name. */
  ghost function FirstNamed(flows: seq<Flow>, name: string): Option<(nat, nat)> {
    if flows == [] then None
    else
      var before := FirstNamed(flows[..|flows| - 1], name);
      if before.Some? then before
      else
        var j := FirstWhere(flows[|flows| - 1].messages, (m: Message) => m.name == name);
        if j.Some? then Some((|flows| - 1, j.value)) else None
  }

  function FirstWhere(ms: seq<Message>, p: Message -> bool): (r: Option<nat>)
    ensures r.Some? ==> r.value < |ms| && p(ms[r.value]) && forall k :: 0 <= k < r.value ==> !p(ms[k])
    ensures r.None? ==> forall k :: 0 <= k < |ms| ==> !p(ms[k])
  {
    if ms == [] then None
    else
      var before := FirstWhere(ms[..|ms| - 1], p);
      if before.Some? then before else if p(ms[|ms| - 1]) then Some(|ms| - 1) else None
  }

  lemma {:induction false} FirstNamedMeaning(flows: seq<Flow>, name: string)
    ensures var r := FirstNamed(flows, name);
            if r.None? then
              forall f, m :: 0 <= f < |flows| && 0 <= m < |flows[f].messages| ==> flows[f].messages[m].name != name
            else IsFirstNamed(flows, name, r.value.0, r.value.1)
  {
    if flows != [] {
      FirstNamedMeaning(flows[..|flows| - 1], name);
    }
  }

  /** Message m of flow f has the name, and no message before it has. */
  ghost predicate IsFirstNamed(flows: seq<Flow>, name: string, f: nat, m: nat) {
    && f < |flows| && m < |flows[f].messages| && flows[f].messages[m].name == name
    && forall g, n :: 0 <= g <= f && 0 <= n < (if g < f then |flows[g].messages| else m) ==>
         flows[g].messages[n].name != name
  }

  ghost function ProducerRoles(rd: Reading, roles: seq<Role>, ms: seq<Message>): seq<Role> {
    if ms == [] then roles
    else
      var before, i, m := ProducerRoles(rd, roles, ms[..|ms| - 1]), |ms| - 1, ms[|ms| - 1];
      if m.request && rd.producer(m.name).Some? && rd.producer(m.name).value != "" then
        AddRole(before, rd.producer(m.name).value, m.dst, PlaneMessage(Sbi, i))
      else before
  }

  /** Association setup request, or else the first session establishment request. */
  function N4Proof(rd: Reading, ms: seq<Message>): Option<nat> {
    var association := FirstWhere(ms, (m: Message) => rd.association(m.name));
    if association.Some? then association else FirstWhere(ms, (m: Message) => rd.establishment(m.name))
  }

  ghost function N2Roles(c: Capture): seq<Role> {
    var initial := FirstNamed(c.flows, "InitialUEMessage");
    FirstNamedMeaning(c.flows, "InitialUEMessage");
    if initial.None? then []
    else
      var (f, m) := initial.value;
      var message := c.flows[f].messages[m];
      AddRole(AddRole([], "gNB", message.src, FlowMessage(f, m)), "AMF", message.dst, FlowMessage(f, m))
  }

  ghost function WithN4Roles(rd: Reading, c: Capture, roles: seq<Role>): seq<Role> {
    var proof := N4Proof(rd, c.n4.messages);
    if proof.None? then roles
    else
      var message, p := c.n4.messages[proof.value], PlaneMessage(N4, proof.value);
      AddRole(AddRole(roles, "SMF", message.src, p), "UPF", message.dst, p)
  }

  ghost function RolesOf(rd: Reading, c: Capture): seq<Role> {
    ProducerRoles(rd, WithN4Roles(rd, c, N2Roles(c)), c.sbi.messages)
  }

  /** The message a pointer names. */
  function MessageAt(c: Capture, p: Pointer): Option<Message> {
    match p
    case FlowMessage(f, m) =>
      if f < |c.flows| && m < |c.flows[f].messages| then Some(c.flows[f].messages[m]) else None
    case PlaneMessage(plane, i) =>
      var ms := if plane == N4 then c.n4.messages else c.sbi.messages;
      if i < |ms| then Some(ms[i]) else None
    case FlowProcedure(_, _) => None
    case PlaneProcedure(_, _) => None
  }

  /** A role is proved by a message that has the NF at one end. */
  ghost predicate Proved(c: Capture, r: Role) {
    && r.ip != "" && MessageAt(c, r.evidence).Some?
    && (MessageAt(c, r.evidence).value.src == r.ip || MessageAt(c, r.evidence).value.dst == r.ip)
  }

  ghost predicate Clean(c: Capture, roles: seq<Role>) {
    && (forall k :: 0 <= k < |roles| ==> Proved(c, roles[k]))
    && (forall k, l :: 0 <= k < l < |roles| ==> roles[k].role != roles[l].role || roles[k].ip != roles[l].ip)
  }

  lemma AddRoleIsClean(c: Capture, roles: seq<Role>, role: string, ip: string, evidence: Pointer)
    requires Clean(c, roles) && (ip != "" ==> Proved(c, Role(role, ip, evidence)))
    ensures Clean(c, AddRole(roles, role, ip, evidence))
  {
  }

  lemma {:induction false} ProducerRolesAreClean(rd: Reading, c: Capture, roles: seq<Role>, n: nat)
    requires Clean(c, roles) && n <= |c.sbi.messages|
    ensures Clean(c, ProducerRoles(rd, roles, c.sbi.messages[..n]))
  {
    hide Clean;
    if n > 0 {
      TakeSnoc(c.sbi.messages, n - 1);
      ProducerRolesAreClean(rd, c, roles, n - 1);
      var m := c.sbi.messages[n - 1];
      var before := ProducerRoles(rd, roles, c.sbi.messages[..n - 1]);
      if m.request && rd.producer(m.name).Some? && rd.producer(m.name).value != "" {
        AddRoleIsClean(c, before, rd.producer(m.name).value, m.dst, PlaneMessage(Sbi, n - 1));
      }
    }
  }

  /** No role is guessed: each cites a message that has its address at one end, and none is listed twice. */
  lemma RolesAreProved(rd: Reading, c: Capture)
    ensures Clean(c, RolesOf(rd, c))
  {
    hide Clean;
    FirstNamedMeaning(c.flows, "InitialUEMessage");
    var initial := FirstNamed(c.flows, "InitialUEMessage");
    var n2: seq<Role> := [];
    NoRolesAreClean(c);
    if initial.Some? {
      var (f, m) := initial.value;
      var message := c.flows[f].messages[m];
      n2 := AddRole([], "gNB", message.src, FlowMessage(f, m));
      AddRoleIsClean(c, [], "gNB", message.src, FlowMessage(f, m));
      AddRoleIsClean(c, n2, "AMF", message.dst, FlowMessage(f, m));
      n2 := AddRole(n2, "AMF", message.dst, FlowMessage(f, m));
    }
    var proof := N4Proof(rd, c.n4.messages);
    var n4 := n2;
    if proof.Some? {
      var message := c.n4.messages[proof.value];
      n4 := AddRole(n2, "SMF", message.src, PlaneMessage(N4, proof.value));
      AddRoleIsClean(c, n2, "SMF", message.src, PlaneMessage(N4, proof.value));
      AddRoleIsClean(c, n4, "UPF", message.dst, PlaneMessage(N4, proof.value));
      n4 := AddRole(n4, "UPF", message.dst, PlaneMessage(N4, proof.value));
    }
    ProducerRolesAreClean(rd, c, n4, |c.sbi.messages|);
    assert c.sbi.messages[..|c.sbi.messages|] == c.sbi.messages;
  }

  lemma NoRolesAreClean(c: Capture)
    ensures Clean(c, [])
  {
  }

  /** Message i shows the SMF and the UPF: the first association request, or if there is none the first
      establishment request. */
  ghost predicate IsN4Proof(rd: Reading, ms: seq<Message>, i: nat) {
    && i < |ms|
    && if rd.association(ms[i].name) then forall k :: 0 <= k < i ==> !rd.association(ms[k].name)
       else && rd.establishment(ms[i].name)
            && (forall k :: 0 <= k < |ms| ==> !rd.association(ms[k].name))
            && forall k :: 0 <= k < i ==> !rd.establishment(ms[k].name)
  }

  /** The message at p shows that the NF at ip has the role. */
  ghost predicate ShowsRole(rd: Reading, c: Capture, p: Pointer, role: string, ip: string) {
    ip != "" &&
    match p
    case FlowMessage(f, m) =>
      && IsFirstNamed(c.flows, "InitialUEMessage", f, m)
      && var message := c.flows[f].messages[m];
         (role == "gNB" && ip == message.src) || (role == "AMF" && ip == message.dst)
    case PlaneMessage(N4, i) =>
      && IsN4Proof(rd, c.n4.messages, i)
      && var message := c.n4.messages[i];
         (role == "SMF" && ip == message.src) || (role == "UPF" && ip == message.dst)
    case PlaneMessage(Sbi, i) =>
      i < |c.sbi.messages| && Produces(rd, c.sbi.messages[i], role) && ip == c.sbi.messages[i].dst
    case _ => false
  }

  ghost predicate Produces(rd: Reading, m: Message, role: string) {
    m.request && rd.producer(m.name) == Some(role) && role != ""
  }

  ghost predicate Lists(roles: seq<Role>, role: string, ip: string) {
    exists k :: 0 <= k < |roles| && roles[k].role == role && roles[k].ip == ip
  }

  ghost predicate AllShown(rd: Reading, c: Capture, roles: seq<Role>) {
    forall k :: 0 <= k < |roles| ==> ShowsRole(rd, c, roles[k].evidence, roles[k].role, roles[k].ip)
  }

  lemma AddRoleLists(roles: seq<Role>, role: string, ip: string, evidence: Pointer, r: string, i: string)
    ensures Lists(AddRole(roles, role, ip, evidence), r, i) <==> Lists(roles, r, i) || (r == role && i == ip != "")
  {
    var longer := AddRole(roles, role, ip, evidence);
    assert forall k :: 0 <= k < |roles| ==> longer[k] == roles[k];
    if |longer| > |roles| {
      assert longer[|roles|].role == role && longer[|roles|].ip == ip;
    }
  }

  lemma {:induction false} ProducerRolesAreExact(rd: Reading, c: Capture, roles: seq<Role>, n: nat)
    requires AllShown(rd, c, roles) && n <= |c.sbi.messages|
    ensures var all := ProducerRoles(rd, roles, c.sbi.messages[..n]);
            && AllShown(rd, c, all)
            && forall r, i :: Lists(all, r, i) <==> Lists(roles, r, i) || ProducedBefore(rd, c, n, r, i)
  {
    hide Lists;
    if n > 0 {
      TakeSnoc(c.sbi.messages, n - 1);
      ProducerRolesAreExact(rd, c, roles, n - 1);
      var m := c.sbi.messages[n - 1];
      var before := ProducerRoles(rd, roles, c.sbi.messages[..n - 1]);
      forall r, i
        ensures Lists(ProducerRoles(rd, roles, c.sbi.messages[..n]), r, i) <==>
                Lists(before, r, i) || (Produces(rd, m, r) && i == m.dst != "")
        ensures ProducedBefore(rd, c, n, r, i) <==>
                ProducedBefore(rd, c, n - 1, r, i) || (Produces(rd, m, r) && i == m.dst != "")
      {
        if Truthy(rd.producer(m.name)) {
          AddRoleLists(before, rd.producer(m.name).value, m.dst, PlaneMessage(Sbi, n - 1), r, i);
        }
      }
    }
  }

  ghost predicate ProducedBefore(rd: Reading, c: Capture, n: nat, role: string, ip: string)
    requires n <= |c.sbi.messages|
  {
    exists k :: 0 <= k < n && Produces(rd, c.sbi.messages[k], role) && ip == c.sbi.messages[k].dst != ""
  }

  lemma N4ProofMeaning(rd: Reading, ms: seq<Message>)
    ensures forall i: nat :: N4Proof(rd, ms) == Some(i) <==> IsN4Proof(rd, ms, i)
  {
    var a := FirstWhere(ms, (m: Message) => rd.association(m.name));
    var e := FirstWhere(ms, (m: Message) => rd.establishment(m.name));
    forall i: nat
      ensures N4Proof(rd, ms) == Some(i) <==> IsN4Proof(rd, ms, i)
    {
      if IsN4Proof(rd, ms, i) && a.Some? {
        assert rd.association(ms[a.value].name);
      } else if IsN4Proof(rd, ms, i) && e.Some? {
        assert rd.establishment(ms[e.value].name);
      }
    }
  }

  lemma AddRoleIsShown(rd: Reading, c: Capture, roles: seq<Role>, role: string, ip: string, evidence: Pointer)
    requires AllShown(rd, c, roles) && (ip != "" ==> ShowsRole(rd, c, evidence, role, ip))
    ensures AllShown(rd, c, AddRole(roles, role, ip, evidence))
  {
  }

  lemma FirstIsUnique(flows: seq<Flow>, name: string, f: nat, m: nat, g: nat, n: nat)
    requires IsFirstNamed(flows, name, f, m) && IsFirstNamed(flows, name, g, n)
    ensures f == g && m == n
  {
  }

  lemma N2RolesAreExact(rd: Reading, c: Capture)
    ensures AllShown(rd, c, N2Roles(c))
    ensures forall r, i ::
              Lists(N2Roles(c), r, i) <==> exists f: nat, m: nat :: ShowsRole(rd, c, FlowMessage(f, m), r, i)
  {
    var name := "InitialUEMessage";
    FirstNamedMeaning(c.flows, name);
    var initial := FirstNamed(c.flows, name);
    if initial.Some? {
      var (f, m) := initial.value;
      var message, p := c.flows[f].messages[m], FlowMessage(f, m);
      var one := AddRole([], "gNB", message.src, p);
      AddRoleIsShown(rd, c, [], "gNB", message.src, p);
      AddRoleIsShown(rd, c, one, "AMF", message.dst, p);
      forall r, i
        ensures Lists(N2Roles(c), r, i) <==> ShowsRole(rd, c, p, r, i)
        ensures forall g: nat, n: nat :: ShowsRole(rd, c, FlowMessage(g, n), r, i) ==> g == f && n == m
      {
        AddRoleLists([], "gNB", message.src, p, r, i);
        AddRoleLists(one, "AMF", message.dst, p, r, i);
        forall g: nat, n: nat | ShowsRole(rd, c, FlowMessage(g, n), r, i) {
          FirstIsUnique(c.flows, name, f, m, g, n);
        }
      }
    }
    hide AddRole, Lists, IsFirstNamed, FirstNamed;
  }

  lemma N4RolesAreExact(rd: Reading, c: Capture, roles: seq<Role>)
    requires AllShown(rd, c, roles)
    ensures AllShown(rd, c, WithN4Roles(rd, c, roles))
    ensures forall r, i :: Lists(WithN4Roles(rd, c, roles), r, i) <==>
              Lists(roles, r, i) || exists k: nat :: ShowsRole(rd, c, PlaneMessage(N4, k), r, i)
  {
    N4ProofMeaning(rd, c.n4.messages);
    var proof := N4Proof(rd, c.n4.messages);
    if proof.Some? {
      var message, p := c.n4.messages[proof.value], PlaneMessage(N4, proof.value);
      var one := AddRole(roles, "SMF", message.src, p);
      AddRoleIsShown(rd, c, roles, "SMF", message.src, p);
      AddRoleIsShown(rd, c, one, "UPF", message.dst, p);
      forall r, i
        ensures Lists(WithN4Roles(rd, c, roles), r, i) <==> Lists(roles, r, i) || ShowsRole(rd, c, p, r, i)
      {
        AddRoleLists(roles, "SMF", message.src, p, r, i);
        AddRoleLists(one, "UPF", message.dst, p, r, i);
      }
    }
    hide AddRole, Lists, IsN4Proof, N4Proof;
  }

  /** The roles listed are exactly those that some message shows, each with such a message. */
  lemma RolesAreExact(rd: Reading, c: Capture)
    ensures AllShown(rd, c, RolesOf(rd, c))
    ensures forall role, ip :: Lists(RolesOf(rd, c), role, ip) <==> exists p :: ShowsRole(rd, c, p, role, ip)
  {
    var n2 := N2Roles(c);
    var n4, ms := WithN4Roles(rd, c, n2), c.sbi.messages;
    N2RolesAreExact(rd, c);
    N4RolesAreExact(rd, c, n2);
    ProducerRolesAreExact(rd, c, n4, |ms|);
    assert ms[..|ms|] == ms;
    forall role, ip
      ensures Lists(RolesOf(rd, c), role, ip) <==> exists p :: ShowsRole(rd, c, p, role, ip)
    {
      if p :| ShowsRole(rd, c, p, role, ip) {
        SomePlace(rd, c, p, role, ip);
      }
      if ProducedBefore(rd, c, |ms|, role, ip) {
        var k :| 0 <= k < |ms| && Produces(rd, ms[k], role) && ip == ms[k].dst != "";
        assert ShowsRole(rd, c, PlaneMessage(Sbi, k), role, ip);
      }
    }
    hide AllShown, ShowsRole, Lists, N2Roles, WithN4Roles, ProducerRoles, ProducedBefore;
  }

  lemma SomePlace(rd: Reading, c: Capture, p: Pointer, role: string, ip: string)
    requires ShowsRole(rd, c, p, role, ip)
    ensures || (exists f: nat, m: nat :: ShowsRole(rd, c, FlowMessage(f, m), role, ip))
            || (exists k: nat :: ShowsRole(rd, c, PlaneMessage(N4, k), role, ip))
            || ProducedBefore(rd, c, |c.sbi.messages|, role, ip)
  {
    match p
    case FlowMessage(f, m) => assert ShowsRole(rd, c, FlowMessage(f, m), role, ip);
    case PlaneMessage(N4, k) => assert ShowsRole(rd, c, PlaneMessage(N4, k), role, ip);
    case PlaneMessage(Sbi, k) =>
    case _ =>
  }

  method InferRoles(rd: Reading, c: Capture) returns (roles: seq<Role>)
    ensures roles == RolesOf(rd, c)
  {
    hide AddRole, N2Roles, FirstNamed;
    roles := InferN2Roles(c);
    var proof := N4Proof(rd, c.n4.messages);
    if proof.Some? {
      var message := c.n4.messages[proof.value];
      roles := AddRole(roles, "SMF", message.src, PlaneMessage(N4, proof.value));
      roles := AddRole(roles, "UPF", message.dst, PlaneMessage(N4, proof.value));
    }
    ghost var before := roles;
    for i := 0 to |c.sbi.messages|
      invariant roles == ProducerRoles(rd, before, c.sbi.messages[..i])
    {
      var m := c.sbi.messages[i];
      TakeSnoc(c.sbi.messages, i);
      if m.request {
        var role := rd.producer(m.name);
        if Truthy(role) {
          roles := AddRole(roles, role.value, m.dst, PlaneMessage(Sbi, i));
        }
      }
    }
    assert c.sbi.messages[..|c.sbi.messages|] == c.sbi.messages;
  }

  method InferN2Roles(c: Capture) returns (roles: seq<Role>)
    ensures roles == N2Roles(c)
  {
    hide AddRole, IsFirstNamed;
    roles := [];
    FirstNamedMeaning(c.flows, "InitialUEMessage");
    assert c.flows[..|c.flows|] == c.flows;
    for f := 0 to |c.flows|
      invariant roles == [] && FirstNamed(c.flows[..f], "InitialUEMessage") == None
    {
      TakeSnoc(c.flows, f);
      var m := FirstWhere(c.flows[f].messages, (m: Message) => m.name == "InitialUEMessage");
      if m.Some? {
        var message := c.flows[f].messages[m.value];
        FoundFirst(c.flows, f, "InitialUEMessage");
        roles := AddRole(roles, "gNB", message.src, FlowMessage(f, m.value));
        roles := AddRole(roles, "AMF", message.dst, FlowMessage(f, m.value));
        break;
      }
    }
  }

  /** The first hit in a prefix is the first hit. */
  lemma {:induction false} FoundFirst(flows: seq<Flow>, f: nat, name: string)
    requires f < |flows|
    ensures FirstNamed(flows[..f + 1], name).Some? ==> FirstNamed(flows, name) == FirstNamed(flows[..f + 1], name)
  {
    if f + 1 < |flows| {
      FoundFirst(flows[..|flows| - 1], f, name);
      assert flows[..|flows| - 1][..f + 1] == flows[..f + 1];
    } else {
      assert flows[..f + 1] == flows;
    }
  }

  // ----- Peers -----

  /** role_by_ip: the last role listed for an address. */
  function RoleAt(roles: seq<Role>, ip: string): Option<Role> {
    if roles == [] then None
    else if roles[|roles| - 1].ip == ip then Some(roles[|roles| - 1])
    else RoleAt(roles[..|roles| - 1], ip)
  }

  type Scan = seq<(Pointer, Message)>

  ghost function FlowScan(f: nat, ms: seq<Message>): Scan {
    seq(|ms|, i requires 0 <= i < |ms| => (FlowMessage(f, i), ms[i]))
  }

  ghost function FlowsScan(flows: seq<Flow>): Scan {
    if flows == [] then [] else FlowsScan(flows[..|flows| - 1]) + FlowScan(|flows| - 1, flows[|flows| - 1].messages)
  }

  ghost function PlaneScan(plane: Plane, ms: seq<Message>): Scan {
    seq(|ms|, i requires 0 <= i < |ms| => (PlaneMessage(plane, i), ms[i]))
  }

  /** Every message of the capture with its pointer, in the order scanned. */
  ghost function WholeScan(c: Capture): Scan {
    FlowsScan(c.flows) + PlaneScan(N4, c.n4.messages) + PlaneScan(Sbi, c.sbi.messages)
  }

  /** The target, as located: its role in upper case and the listed role. */
  datatype Target = Target(rd: Reading, roles: seq<Role>, role: Role)

  predicate SameRole(t: Target, r: Role) {
    t.rd.upper(r.role) == t.rd.upper(t.role.role)
  }

  datatype Peers = Peers(partners: Dict<string, AffectedNF>, unknown: Dict<string, Pointer>)

  ghost predicate ValidPeers(ps: Peers) {
    ps.partners.Valid() && ps.unknown.Valid()
  }

  function NotePeer(t: Target, ps: Peers, ip: string, p: Pointer): (r: Peers)
    requires ValidPeers(ps)
    ensures ValidPeers(r)
  {
    if ip == "" || ip == t.role.ip then ps
    else
      var peer := RoleAt(t.roles, ip);
      if peer.None? then
        if ps.unknown.Has(ip) then ps else ps.(unknown := ps.unknown.Put(ip, p))
      else if !SameRole(t, peer.value) && !ps.partners.Has(ip) then
        ps.(partners := ps.partners.Put(ip, Unattributed(peer.value, ip)))
      else ps
  }

  function NoteMessage(t: Target, ps: Peers, p: Pointer, m: Message): (r: Peers)
    requires ValidPeers(ps)
    ensures ValidPeers(r)
  {
    var noted := if m.dst == t.role.ip then NotePeer(t, ps, m.src, p) else ps;
    if m.src == t.role.ip then NotePeer(t, noted, m.dst, p) else noted
  }

  ghost function NoteAll(t: Target, scan: Scan): (r: Peers)
    ensures ValidPeers(r)
  {
    if scan == [] then Peers(Empty(), Empty())
    else NoteMessage(t, NoteAll(t, scan[..|scan| - 1]), scan[|scan| - 1].0, scan[|scan| - 1].1)
  }

  lemma NoteSnoc(t: Target, scan: Scan, p: Pointer, m: Message)
    ensures NoteAll(t, scan + [(p, m)]) == NoteMessage(t, NoteAll(t, scan), p, m)
  {
    assert (scan + [(p, m)])[..|scan|] == scan;
  }

  /** The message has the target at one end and ip at the other. */
  ghost predicate Meets(t: Target, m: Message, ip: string) {
    ip != "" && ip != t.role.ip && ((m.dst == t.role.ip && m.src == ip) || (m.src == t.role.ip && m.dst == ip))
  }

  ghost predicate Seen(t: Target, scan: Scan, ip: string) {
    exists k :: 0 <= k < |scan| && Meets(t, scan[k].1, ip)
  }

  /** The entry of an affected NF before any procedure is attributed. */
  function Unattributed(r: Role, ip: string): AffectedNF {
    AffectedNF(r.role, ip, r.evidence, [], Stats(0, 0, 0))
  }

  /** An endpoint that shares a message with the target is unknown, of the target's role, or affected. */
  ghost predicate ClassifiedAt(t: Target, scan: Scan, ps: Peers, ip: string) {
    var role := RoleAt(t.roles, ip);
    && (ps.unknown.Has(ip) <==> Seen(t, scan, ip) && role.None?)
    && (ps.unknown.Has(ip) ==> FirstMeets(t, scan, ip, ps.unknown.at[ip]))
    && (ps.partners.Has(ip) <==> Seen(t, scan, ip) && role.Some? && !SameRole(t, role.value))
    && (ps.partners.Has(ip) ==> ps.partners.at[ip] == Unattributed(role.value, ip))
  }

  ghost predicate FirstMeets(t: Target, scan: Scan, ip: string, p: Pointer) {
    exists k :: 0 <= k < |scan| && scan[k].0 == p && Meets(t, scan[k].1, ip)
      && forall j :: 0 <= j < k ==> !Meets(t, scan[j].1, ip)
  }

  lemma SeenSnoc(t: Target, scan: Scan, p: Pointer, m: Message, ip: string)
    ensures Seen(t, scan + [(p, m)], ip) <==> Seen(t, scan, ip) || Meets(t, m, ip)
    ensures forall q :: FirstMeets(t, scan, ip, q) ==> FirstMeets(t, scan + [(p, m)], ip, q)
    ensures !Seen(t, scan, ip) && Meets(t, m, ip) ==> FirstMeets(t, scan + [(p, m)], ip, p)
  {
    var longer := scan + [(p, m)];
    assert longer[|scan|] == (p, m);
    assert forall k :: 0 <= k < |scan| ==> longer[k] == scan[k];
  }

  lemma {:induction false} NoteAllClassifies(t: Target, scan: Scan, ip: string)
    ensures ClassifiedAt(t, scan, NoteAll(t, scan), ip)
  {
    hide NoteMessage, RoleAt;
    if scan != [] {
      var before := scan[..|scan| - 1];
      var (p, m) := scan[|scan| - 1];
      NoteAllClassifies(t, before, ip);
      assert scan == before + [(p, m)];
      SeenSnoc(t, before, p, m, ip);
      NoteAt(t, NoteAll(t, before), p, m, ip);
    }
  }

  /** What one message does to the entry of ip. */
  lemma NoteAt(t: Target, ps: Peers, p: Pointer, m: Message, ip: string)
    requires ValidPeers(ps)
    ensures var r := NoteMessage(t, ps, p, m);
            var role := RoleAt(t.roles, ip);
            && (r.unknown.Has(ip) <==> ps.unknown.Has(ip) || (Meets(t, m, ip) && role.None?))
            && (r.unknown.Has(ip) ==> r.unknown.at[ip] == if ps.unknown.Has(ip) then ps.unknown.at[ip] else p)
            && (r.partners.Has(ip) <==>
                  ps.partners.Has(ip) || (Meets(t, m, ip) && role.Some? && !SameRole(t, role.value)))
            && (r.partners.Has(ip) ==>
                  r.partners.at[ip] == if ps.partners.Has(ip) then ps.partners.at[ip] else Unattributed(role.value, ip))
  {
    hide RoleAt, SameRole;
  }

  // ----- Procedures -----

  /** Which NFs a procedure touches: those at some address, or the N4 plane's own. */
  datatype Touch = At(ips: set<string>) | OnN4

  datatype Attribution = Attribution(pointer: Pointer, procedure: Procedure, touch: Touch)

  predicate Touches(touch: Touch, role: string, ip: string) {
    match touch
    case At(ips) => ip in ips
    case OnN4 => role == "SMF" || role == "UPF"
  }

  function Ends(ms: seq<Message>): set<string> {
    if ms == [] then {} else Ends(ms[..|ms| - 1]) + ({ms[|ms| - 1].src, ms[|ms| - 1].dst} - {""})
  }

  function FlowAttributions(f: nat, flow: Flow): seq<Attribution> {
    seq(|flow.procedures|, i requires 0 <= i < |flow.procedures| =>
      Attribution(FlowProcedure(f, i), flow.procedures[i], At(Ends(flow.messages))))
  }

  ghost function FlowsAttributions(flows: seq<Flow>): seq<Attribution> {
    if flows == [] then []
    else FlowsAttributions(flows[..|flows| - 1]) + FlowAttributions(|flows| - 1, flows[|flows| - 1])
  }

  function N4Attributions(ps: seq<Procedure>): seq<Attribution> {
    seq(|ps|, i requires 0 <= i < |ps| => Attribution(PlaneProcedure(N4, i), ps[i], OnN4))
  }

  /** flow_by_id: the last flow with the id. */
  function FlowById(flows: seq<Flow>, id: int): Option<Flow> {
    if flows == [] then None
    else if flows[|flows| - 1].flowId == Some(id) then Some(flows[|flows| - 1])
    else FlowById(flows[..|flows| - 1], id)
  }

  /** The messages referenced by indices that exist. */
  function Referenced(refs: seq<int>, ms: seq<Message>): seq<Message> {
    if refs == [] then []
    else
      var ref := refs[|refs| - 1];
      Referenced(refs[..|refs| - 1], ms) + if 0 <= ref < |ms| then [ms[ref]] else []
  }

  function SbiIps(c: Capture, p: Procedure): set<string> {
    if p.flowId.None? then {}
    else
      var flow := FlowById(c.flows, p.flowId.value);
      if flow.None? then {} else Ends(Referenced(flow.value.sbiRefs, c.sbi.messages))
  }

  function SbiAttributions(c: Capture): seq<Attribution> {
    seq(|c.sbi.procedures|, i requires 0 <= i < |c.sbi.procedures| =>
      Attribution(PlaneProcedure(Sbi, i), c.sbi.procedures[i], At(SbiIps(c, c.sbi.procedures[i]))))
  }

  /** Every procedure of the capture with what it touches, in the order attributed. */
  ghost function Attributions(c: Capture): seq<Attribution> {
    FlowsAttributions(c.flows) + N4Attributions(c.n4.procedures) + SbiAttributions(c)
  }

  /** The procedures that touch an NF. */
  ghost function Hits(attributions: seq<Attribution>, role: string, ip: string): seq<Hit> {
    if attributions == [] then []
    else
      var a := attributions[|attributions| - 1];
      Hits(attributions[..|attributions| - 1], role, ip)
      + if Touches(a.touch, role, ip) then [Hit(a.pointer, a.procedure.kind, a.procedure.outcome)] else []
  }

  ghost function CountOutcome(hits: seq<Hit>, outcome: string): nat {
    if hits == [] then 0
    else CountOutcome(hits[..|hits| - 1], outcome) + if hits[|hits| - 1].outcome == outcome then 1 else 0
  }

  /** The counts of a list of procedures. */
  ghost function StatsOf(hits: seq<Hit>): Stats {
    Stats(|hits|, CountOutcome(hits, "accept"), CountOutcome(hits, "reject"))
  }

  /** The NF with one more procedure. */
  function Attributed(nf: AffectedNF, pointer: Pointer, p: Procedure): AffectedNF {
    nf.(procedures := nf.procedures + [Hit(pointer, p.kind, p.outcome)],
        kpis := Stats(nf.kpis.count + 1,
                      nf.kpis.successes + (if p.outcome == "accept" then 1 else 0),
                      nf.kpis.failures + (if p.outcome == "reject" then 1 else 0)))
  }

  lemma AttributedCounts(nf: AffectedNF, pointer: Pointer, p: Procedure)
    requires nf.kpis == StatsOf(nf.procedures)
    ensures Attributed(nf, pointer, p).kpis == StatsOf(Attributed(nf, pointer, p).procedures)
  {
    var more := Attributed(nf, pointer, p).procedures;
    assert more[..|more| - 1] == nf.procedures;
  }

  lemma HitsSnoc(attributions: seq<Attribution>, a: Attribution, role: string, ip: string)
    ensures Hits(attributions + [a], role, ip) == Hits(attributions, role, ip) +
            if Touches(a.touch, role, ip) then [Hit(a.pointer, a.procedure.kind, a.procedure.outcome)] else []
  {
    assert (attributions + [a])[..|attributions|] == attributions;
  }

  /** nf is the NF of role r at ip with the procedures attributed so far. */
  ghost predicate Carries(nf: AffectedNF, r: Role, ip: string, attributions: seq<Attribution>) {
    && nf.role == r.role && nf.ip == ip && nf.evidence == r.evidence
    && nf.procedures == Hits(attributions, r.role, ip) && nf.kpis == StatsOf(nf.procedures)
  }

  /** Every partner carries the procedures attributed so far. */
  ghost predicate Loaded(t: Target, base: Dict<string, AffectedNF>, partners: Dict<string, AffectedNF>,
                         attributions: seq<Attribution>)
  {
    && base.Valid() && partners.Valid() && partners.order == base.order
    && forall ip :: partners.Has(ip) ==>
         RoleAt(t.roles, ip).Some? && Carries(partners.at[ip], RoleAt(t.roles, ip).value, ip, attributions)
  }

  method Attribute(ghost t: Target, ghost base: Dict<string, AffectedNF>, partners: Dict<string, AffectedNF>,
                   ghost before: seq<Attribution>, a: Attribution)
    returns (more: Dict<string, AffectedNF>)
    requires Loaded(t, base, partners, before)
    ensures Loaded(t, base, more, before + [a])
  {
    hide Hits, Touches, StatsOf, RoleAt, Dict.Valid, Attributed;
    more := partners;
    OrderHolds(partners);
    for i := 0 to |partners.order|
      invariant more.Valid() && more.order == partners.order && more.at.Keys == partners.at.Keys
      invariant forall ip :: ip in partners.order[i..] ==>
                  ip in more.at && ip in partners.at && more.at[ip] == partners.at[ip]
      invariant forall ip :: ip in partners.order[..i] ==>
                  ip in more.at && RoleAt(t.roles, ip).Some?
                  && Carries(more.at[ip], RoleAt(t.roles, ip).value, ip, before + [a])
    {
      var ip := partners.order[i];
      assert ip in partners.order && ip in partners.order[i..];
      var nf := more.at[ip];
      HitsSnoc(before, a, nf.role, ip);
      if Touches(a.touch, nf.role, ip) {
        AttributedCounts(nf, a.pointer, a.procedure);
        AttributedIs(nf, a.pointer, a.procedure);
        more := more.Put(ip, Attributed(nf, a.pointer, a.procedure));
      }
      NotAgain(partners.order, i);
    }
    assert partners.order[..|partners.order|] == partners.order;
  }

  lemma AttributedIs(nf: AffectedNF, pointer: Pointer, p: Procedure)
    ensures Attributed(nf, pointer, p) ==
            nf.(procedures := nf.procedures + [Hit(pointer, p.kind, p.outcome)],
                kpis := Attributed(nf, pointer, p).kpis)
  {
  }

  lemma OrderHolds<K, V>(d: Dict<K, V>)
    requires d.Valid()
    ensures Distinct(d.order) && forall k :: d.Has(k) <==> k in d.order
  {
    forall k
      ensures d.Has(k) <==> k in d.order
    {
      assert k in d.order <==> k in (set x | x in d.order);
    }
  }

  lemma NotAgain<K>(order: seq<K>, i: nat)
    requires Distinct(order) && i < |order|
    ensures order[i] !in order[i + 1..] && order[i] !in order[..i]
    ensures order[i..] == [order[i]] + order[i + 1..] && order[..i + 1] == order[..i] + [order[i]]
  {
  }

  // ----- The blast radius -----

  function FindTarget(rd: Reading, roles: seq<Role>, target: string): (r: Option<Role>)
    ensures r.Some? ==> rd.upper(r.value.role) == rd.upper(target)
    ensures r.None? ==> forall k :: 0 <= k < |roles| ==> rd.upper(roles[k].role) != rd.upper(target)
  {
    if roles == [] then None
    else
      var before := FindTarget(rd, roles[..|roles| - 1], target);
      if before.Some? then before
      else if rd.upper(roles[|roles| - 1].role) == rd.upper(target) then Some(roles[|roles| - 1]) else None
  }

  /** Sorted by role, then address. */
  predicate NfBefore(x: AffectedNF, y: AffectedNF) {
    if x.role == y.role then Leq(x.ip, y.ip) else Leq(x.role, y.role)
  }

  lemma NfBeforeIsTotal()
    ensures TotalPreorder(NfBefore)
  {
    forall x, y
      ensures NfBefore(x, y) || NfBefore(y, x)
    {
      LeqIsTotal(x.ip, y.ip);
      LeqIsTotal(x.role, y.role);
    }
    forall x, y, z | NfBefore(x, y) && NfBefore(y, z)
      ensures NfBefore(x, z)
    {
      if x.role == y.role == z.role {
        LeqIsTransitive(x.ip, y.ip, z.ip);
      } else {
        LeqIsTotal(x.role, y.role);
        LeqIsTotal(y.role, z.role);
        if Leq(x.role, y.role) && Leq(y.role, z.role) {
          LeqIsTransitive(x.role, y.role, z.role);
        }
      }
    }
  }

  /** An NF beyond the target that shares a message with it. */
  ghost predicate IsAffected(t: Target, c: Capture, ip: string) {
    Seen(t, WholeScan(c), ip) && RoleAt(t.roles, ip).Some? && !SameRole(t, RoleAt(t.roles, ip).value)
  }

  ghost predicate IsUnknown(t: Target, c: Capture, ip: string) {
    Seen(t, WholeScan(c), ip) && RoleAt(t.roles, ip).None?
  }

  /** The result lists exactly the affected NFs, once each, in order and with exactly the procedures
      attributed to them, and counts exactly the unknown peers, each with the first message that shows it. */
  ghost predicate Explains(t: Target, c: Capture, result: BlastResult, unknown: seq<string>) {
    && (forall k :: 0 <= k < |result.affected| ==>
          && IsAffected(t, c, result.affected[k].ip)
          && Carries(result.affected[k], RoleAt(t.roles, result.affected[k].ip).value,
                   result.affected[k].ip, Attributions(c)))
    && (forall ip :: IsAffected(t, c, ip) ==> exists k :: 0 <= k < |result.affected| && result.affected[k].ip == ip)
    && (forall k, l :: 0 <= k < l < |result.affected| ==>
          result.affected[k].ip != result.affected[l].ip && NfBefore(result.affected[k], result.affected[l]))
    && result.unknownPeers == |unknown| == |result.unknownPointers| && Distinct(unknown)
    && (forall ip :: ip in unknown <==> IsUnknown(t, c, ip))
    && (forall k :: 0 <= k < |unknown| ==> FirstMeets(t, WholeScan(c), unknown[k], result.unknownPointers[k]))
  }

  /** The result explains every endpoint that shares a message with the target. */
  ghost predicate IsExact(t: Target, c: Capture, result: BlastResult) {
    exists unknown :: Explains(t, c, result, unknown)
  }

  method BlastRadius(rd: Reading, target: string, c: Capture)
    returns (result: BlastResult, ghost roles: seq<Role>, ghost unknown: seq<string>)
    ensures AreRoles(rd, c, roles) && roles == RolesOf(rd, c)
    ensures result.target.None? <==>
            c.path == None || !c.present || forall k :: 0 <= k < |roles| ==> rd.upper(roles[k].role) != rd.upper(target)
    ensures result.target.Some? ==> IsTarget(rd, roles, target, result.target.value)
    ensures result.target.Some? ==> IsRadius(rd, roles, result.target.value, c, result, unknown)
    ensures result.target == if Consulted(c) then FindTarget(rd, RolesOf(rd, c), target) else None
    ensures result.target.None? ==> result == BlastResult(None, [], 0, [])
    ensures result.target.Some? ==> IsExact(Target(rd, RolesOf(rd, c), result.target.value), c, result)
  {
    hide NoteAll, WholeScan, RolesOf, FindTarget, Explains, Attributions, Sort, Dict.Valid, AreRoles, IsRadius,
         IsTarget;
    RolesAreInOrder(rd, c);
    roles, unknown := RolesOf(rd, c), [];
    if !Consulted(c) {
      return BlastResult(None, [], 0, []), roles, unknown;
    }
    var inferred := InferRoles(rd, c);
    var found := FindTarget(rd, inferred, target);
    FindTargetIsFirst(rd, roles, target);
    if found.None? {
      return BlastResult(None, [], 0, []), roles, unknown;
    }
    var t := Target(rd, inferred, found.value);
    var peers := ScanPeers(t, c);
    var partners := AttributeProcedures(t, c, peers);
    var affected := Sort(NfBefore, partners.Values());
    result := BlastResult(found, affected, |peers.unknown.order|, peers.unknown.Values());
    unknown := peers.unknown.order;
    Explained(t, c, peers, partners, result, unknown);
    ExplainsRadius(t, c, result, unknown);
  }

  /** The first role listed under the target's name. */
  ghost predicate IsTarget(rd: Reading, roles: seq<Role>, target: string, r: Role) {
    exists k :: 0 <= k < |roles| && roles[k] == r && rd.upper(r.role) == rd.upper(target)
                && forall j :: 0 <= j < k ==> rd.upper(roles[j].role) != rd.upper(target)
  }

  lemma {:induction false} FindTargetIsFirst(rd: Reading, roles: seq<Role>, target: string)
    ensures FindTarget(rd, roles, target).Some? ==> IsTarget(rd, roles, target, FindTarget(rd, roles, target).value)
  {
    if roles != [] {
      var before := roles[..|roles| - 1];
      FindTargetIsFirst(rd, before, target);
      assert forall k :: 0 <= k < |before| ==> before[k] == roles[k];
      if FindTarget(rd, before, target).None? && rd.upper(roles[|before|].role) == rd.upper(target) {
        assert roles[|before|] == FindTarget(rd, roles, target).value;
      }
    }
  }

  method ScanPeers(t: Target, c: Capture) returns (peers: Peers)
    ensures peers == NoteAll(t, WholeScan(c)) && ValidPeers(peers)
  {
    hide NoteMessage, FlowsScan, FlowScan, PlaneScan, NoteAll;
    peers := Peers(Empty(), Empty());
    ScanNothing(t);
    assert c.flows[..0] == [];
    for f := 0 to |c.flows|
      invariant ValidPeers(peers) && peers == NoteAll(t, FlowsScan(c.flows[..f]))
    {
      TakeSnoc(c.flows, f);
      FlowsScanSnoc(c.flows[..f], c.flows[f]);
      peers := ScanFlow(t, peers, f, c.flows[f].messages, FlowsScan(c.flows[..f]));
    }
    assert c.flows[..|c.flows|] == c.flows;
    peers := ScanPlane(t, peers, N4, c.n4.messages, FlowsScan(c.flows));
    peers := ScanPlane(t, peers, Sbi, c.sbi.messages, FlowsScan(c.flows) + PlaneScan(N4, c.n4.messages));
  }

  lemma ScanNothing(t: Target)
    ensures NoteAll(t, FlowsScan([])) == Peers(Empty(), Empty())
  {
  }

  lemma FlowsScanSnoc(flows: seq<Flow>, f: Flow)
    ensures FlowsScan(flows + [f]) == FlowsScan(flows) + FlowScan(|flows|, f.messages)
  {
    assert (flows + [f])[..|flows|] == flows;
  }

  method ScanFlow(t: Target, peers: Peers, f: nat, ms: seq<Message>, ghost before: Scan) returns (more: Peers)
    requires ValidPeers(peers) && peers == NoteAll(t, before)
    ensures ValidPeers(more) && more == NoteAll(t, before + FlowScan(f, ms))
  {
    hide NoteMessage;
    more := peers;
    assert before + FlowScan(f, ms[..0]) == before;
    for i := 0 to |ms|
      invariant ValidPeers(more) && more == NoteAll(t, before + FlowScan(f, ms[..i]))
    {
      assert before + FlowScan(f, ms[..i + 1]) == before + FlowScan(f, ms[..i]) + [(FlowMessage(f, i), ms[i])];
      NoteSnoc(t, before + FlowScan(f, ms[..i]), FlowMessage(f, i), ms[i]);
      more := NoteMessage(t, more, FlowMessage(f, i), ms[i]);
    }
    assert ms[..|ms|] == ms;
  }

  method ScanPlane(t: Target, peers: Peers, plane: Plane, ms: seq<Message>, ghost before: Scan) returns (more: Peers)
    requires ValidPeers(peers) && peers == NoteAll(t, before)
    ensures ValidPeers(more) && more == NoteAll(t, before + PlaneScan(plane, ms))
  {
    hide NoteMessage;
    more := peers;
    assert before + PlaneScan(plane, ms[..0]) == before;
    for i := 0 to |ms|
      invariant ValidPeers(more) && more == NoteAll(t, before + PlaneScan(plane, ms[..i]))
    {
      assert before + PlaneScan(plane, ms[..i + 1]) ==
             before + PlaneScan(plane, ms[..i]) + [(PlaneMessage(plane, i), ms[i])];
      NoteSnoc(t, before + PlaneScan(plane, ms[..i]), PlaneMessage(plane, i), ms[i]);
      more := NoteMessage(t, more, PlaneMessage(plane, i), ms[i]);
    }
    assert ms[..|ms|] == ms;
  }

  method AttributeProcedures(t: Target, c: Capture, peers: Peers) returns (partners: Dict<string, AffectedNF>)
    requires peers == NoteAll(t, WholeScan(c))
    ensures Loaded(t, peers.partners, partners, Attributions(c))
  {
    hide Loaded;
    partners := peers.partners;
    LoadedNothing(t, c, peers);
    assert FlowsAttributions([]) == [] && c.flows[..0] == [];
    for f := 0 to |c.flows|
      invariant Loaded(t, peers.partners, partners, FlowsAttributions(c.flows[..f]))
    {
      TakeSnoc(c.flows, f);
      partners := AttributeSome(t, peers.partners, partners, FlowsAttributions(c.flows[..f]),
                                    FlowAttributions(f, c.flows[f]));
    }
    assert c.flows[..|c.flows|] == c.flows;
    partners := AttributeSome(t, peers.partners, partners, FlowsAttributions(c.flows), N4Attributions(c.n4.procedures));
    partners := AttributeSome(t, peers.partners, partners, FlowsAttributions(c.flows) + N4Attributions(c.n4.procedures),
                              SbiAttributions(c));
  }

  method AttributeSome(ghost t: Target, ghost base: Dict<string, AffectedNF>, partners: Dict<string, AffectedNF>,
                       ghost before: seq<Attribution>, some: seq<Attribution>)
    returns (more: Dict<string, AffectedNF>)
    requires Loaded(t, base, partners, before)
    ensures Loaded(t, base, more, before + some)
  {
    hide Loaded;
    more := partners;
    assert before + some[..0] == before;
    for i := 0 to |some|
      invariant Loaded(t, base, more, before + some[..i])
    {
      assert before + some[..i + 1] == before + some[..i] + [some[i]];
      more := Attribute(t, base, more, before + some[..i], some[i]);
    }
    assert some[..|some|] == some;
  }

  lemma LoadedNothing(t: Target, c: Capture, peers: Peers)
    requires peers == NoteAll(t, WholeScan(c))
    ensures Loaded(t, peers.partners, peers.partners, [])
  {
    hide NoteAll, WholeScan, RoleAt, SameRole, Seen;
    forall ip | peers.partners.Has(ip)
      ensures RoleAt(t.roles, ip).Some? && Carries(peers.partners.at[ip], RoleAt(t.roles, ip).value, ip, [])
    {
      NoteAllClassifies(t, WholeScan(c), ip);
    }
  }

  lemma Explained(t: Target, c: Capture, peers: Peers, partners: Dict<string, AffectedNF>, result: BlastResult,
                  unknown: seq<string>)
    requires peers == NoteAll(t, WholeScan(c)) && Loaded(t, peers.partners, partners, Attributions(c))
    requires result == BlastResult(Some(t.role), Sort(NfBefore, partners.Values()),
                                   |peers.unknown.order|, peers.unknown.Values())
    requires unknown == peers.unknown.order
    ensures Explains(t, c, result, unknown)
  {
    hide NoteAll, WholeScan, RoleAt, SameRole, Seen, Attributions, Sort, Dict.Valid, Carries, NfBefore;
    PartnersAreAffected(t, c, peers, partners);
    forall ip | partners.Has(ip)
      ensures partners.at[ip].ip == ip
    {
      CarriesItsIp(partners.at[ip], RoleAt(t.roles, ip).value, ip, Attributions(c));
    }
    SortedValues(partners);
    OrderHolds(peers.unknown);
    forall ip
      ensures ip in unknown <==> IsUnknown(t, c, ip)
      ensures ip in unknown ==> FirstMeets(t, WholeScan(c), ip, peers.unknown.at[ip])
    {
      NoteAllClassifies(t, WholeScan(c), ip);
    }
    assert forall k :: 0 <= k < |unknown| ==> unknown[k] in unknown;
    hide FirstMeets, IsAffected, IsUnknown;
  }

  lemma CarriesItsIp(nf: AffectedNF, r: Role, ip: string, attributions: seq<Attribution>)
    requires Carries(nf, r, ip, attributions)
    ensures nf.ip == ip
  {
  }

  lemma PartnersAreAffected(t: Target, c: Capture, peers: Peers, partners: Dict<string, AffectedNF>)
    requires peers == NoteAll(t, WholeScan(c)) && Loaded(t, peers.partners, partners, Attributions(c))
    ensures forall ip :: partners.Has(ip) <==> IsAffected(t, c, ip)
  {
    hide NoteAll, WholeScan, RoleAt, SameRole, Seen, Attributions, Dict.Valid, Carries;
    OrderHolds(partners);
    OrderHolds(peers.partners);
    forall ip
      ensures partners.Has(ip) <==> IsAffected(t, c, ip)
    {
      NoteAllClassifies(t, WholeScan(c), ip);
    }
  }

  /** The sorted values of a dictionary keyed by address: each entry once, in order. */
  lemma SortedValues(d: Dict<string, AffectedNF>)
    requires d.Valid() && forall ip :: d.Has(ip) ==> d.at[ip].ip == ip
    ensures var sorted := Sort(NfBefore, d.Values());
            && (forall k :: 0 <= k < |sorted| ==> d.Has(sorted[k].ip) && d.at[sorted[k].ip] == sorted[k])
            && (forall ip :: d.Has(ip) ==> exists k :: 0 <= k < |sorted| && sorted[k].ip == ip)
            && (forall k, l :: 0 <= k < l < |sorted| ==> sorted[k].ip != sorted[l].ip && NfBefore(sorted[k], sorted[l]))
  {
    hide Sort, Leq, NfBefore, Dict.Valid;
    var values, sorted := d.Values(), Sort(NfBefore, d.Values());
    OrderHolds(d);
    assert forall i :: 0 <= i < |d.order| ==> d.order[i] in d.order;
    assert forall i :: 0 <= i < |values| ==>
             d.Has(values[i].ip) && values[i] == d.at[values[i].ip] && values[i].ip == d.order[i];
    NfBeforeIsTotal();
    SortIsStable(NfBefore, values);
    SortMembers(NfBefore, values);
    assert Distinct(values);
    SortIsDistinct(NfBefore, values);
    forall k | 0 <= k < |sorted|
      ensures d.Has(sorted[k].ip) && d.at[sorted[k].ip] == sorted[k]
    {
      assert sorted[k] in values;
    }
    forall ip | d.Has(ip)
      ensures exists k :: 0 <= k < |sorted| && sorted[k].ip == ip
    {
      var i :| 0 <= i < |d.order| && d.order[i] == ip;
      assert values[i] in sorted;
    }
  }

  // ----- No procedure is attributed twice -----

  ghost predicate DistinctPointers(attributions: seq<Attribution>) {
    forall k, l :: 0 <= k < l < |attributions| ==> attributions[k].pointer != attributions[l].pointer
  }

  lemma {:induction false} FlowPointers(flows: seq<Flow>)
    ensures DistinctPointers(FlowsAttributions(flows))
    ensures forall k :: 0 <= k < |FlowsAttributions(flows)| ==>
              FlowsAttributions(flows)[k].pointer.FlowProcedure? && FlowsAttributions(flows)[k].pointer.flow < |flows|
  {
    hide Ends;
    if flows != [] {
      FlowPointers(flows[..|flows| - 1]);
      var before, own := FlowsAttributions(flows[..|flows| - 1]), FlowAttributions(|flows| - 1, flows[|flows| - 1]);
      assert forall k :: 0 <= k < |own| ==> own[k].pointer == FlowProcedure(|flows| - 1, k);
    }
  }

  lemma PointersAreDistinct(c: Capture)
    ensures DistinctPointers(Attributions(c))
  {
    hide FlowsAttributions, SbiIps;
    FlowPointers(c.flows);
    var flows, n4, sbi := FlowsAttributions(c.flows), N4Attributions(c.n4.procedures), SbiAttributions(c);
    assert forall k :: 0 <= k < |n4| ==> n4[k].pointer == PlaneProcedure(N4, k);
    assert forall k :: 0 <= k < |sbi| ==> sbi[k].pointer == PlaneProcedure(Sbi, k);
    var all := flows + n4 + sbi;
    assert forall k :: 0 <= k < |flows| ==> all[k] == flows[k];
    assert forall k :: |flows| <= k < |flows| + |n4| ==> all[k] == n4[k - |flows|];
    assert forall k :: |flows| + |n4| <= k < |all| ==> all[k] == sbi[k - |flows| - |n4|];
  }

  ghost predicate IsPointer(attributions: seq<Attribution>, p: Pointer) {
    exists j :: 0 <= j < |attributions| && attributions[j].pointer == p
  }

  lemma {:induction false} HitPointers(attributions: seq<Attribution>, role: string, ip: string)
    requires DistinctPointers(attributions)
    ensures forall k :: 0 <= k < |Hits(attributions, role, ip)| ==>
              IsPointer(attributions, Hits(attributions, role, ip)[k].pointer)
    ensures forall k, l :: 0 <= k < l < |Hits(attributions, role, ip)| ==>
              Hits(attributions, role, ip)[k].pointer != Hits(attributions, role, ip)[l].pointer
  {
    hide Touches;
    if attributions != [] {
      var before, a := attributions[..|attributions| - 1], attributions[|attributions| - 1];
      HitPointers(before, role, ip);
      assert attributions[|before|] == a;
      forall p | IsPointer(before, p)
        ensures IsPointer(attributions, p) && p != a.pointer
      {
        var j :| 0 <= j < |before| && before[j].pointer == p;
        assert attributions[j] == before[j];
      }
    }
  }

  /** An NF's procedures are cited once each, so its counts are of different procedures. */
  lemma CountsAreOfDistinctProcedures(c: Capture, nf: AffectedNF, r: Role, ip: string)
    requires Carries(nf, r, ip, Attributions(c))
    ensures forall k, l :: 0 <= k < l < |nf.procedures| ==> nf.procedures[k].pointer != nf.procedures[l].pointer
    ensures nf.kpis.count == |nf.procedures| && nf.kpis.successes + nf.kpis.failures <= nf.kpis.count
  {
    hide Attributions, Hits;
    PointersAreDistinct(c);
    HitPointers(Attributions(c), r.role, ip);
    OutcomesAreSome(nf.procedures);
  }

  lemma {:induction false} OutcomesAreSome(hits: seq<Hit>)
    ensures CountOutcome(hits, "accept") + CountOutcome(hits, "reject") <= |hits|
  {
    if hits != [] {
      OutcomesAreSome(hits[..|hits| - 1]);
    }
  }

  // ----- The roles in order, stated on the messages -----

  /** The order in which the capture is read: the flows, then N4, then SBI. */
  ghost predicate Precedes(p: Pointer, q: Pointer) {
    match p
    case FlowMessage(f, i) => q.PlaneMessage? || (q.FlowMessage? && (f < q.flow || (f == q.flow && i < q.index)))
    case PlaneMessage(plane, i) =>
      q.PlaneMessage? && if plane == q.plane then i < q.index else plane == N4
    case FlowProcedure(f, i) => q.PlaneProcedure? || (q.FlowProcedure? && (f < q.flow || (f == q.flow && i < q.index)))
    case PlaneProcedure(plane, i) =>
      q.PlaneProcedure? && if plane == q.plane then i < q.index else plane == N4
  }

  /** Listed by the messages that show them; of one message, the sender comes first. */
  ghost predicate RoleFirst(a: Role, b: Role) {
    || Precedes(a.evidence, b.evidence)
    || (a.evidence == b.evidence && ((a.role == "gNB" && b.role == "AMF") || (a.role == "SMF" && b.role == "UPF")))
  }

  ghost predicate RolesInOrder(roles: seq<Role>) {
    forall k, l :: 0 <= k < l < |roles| ==> RoleFirst(roles[k], roles[l])
  }

  /** No message before the cited one shows the role. */
  ghost predicate CitesFirst(rd: Reading, c: Capture, r: Role) {
    forall p :: ShowsRole(rd, c, p, r.role, r.ip) ==> !Precedes(p, r.evidence)
  }

  /** The roles that the capture shows, each with the first message that shows it, in the order of the messages. */
  ghost predicate AreRoles(rd: Reading, c: Capture, roles: seq<Role>) {
    && AllShown(rd, c, roles) && RolesInOrder(roles)
    && (forall k :: 0 <= k < |roles| ==> CitesFirst(rd, c, roles[k]))
    && (forall p, role, ip :: ShowsRole(rd, c, p, role, ip) ==> Lists(roles, role, ip))
  }

  ghost predicate AllCiteFirst(rd: Reading, c: Capture, roles: seq<Role>) {
    forall k :: 0 <= k < |roles| ==> CitesFirst(rd, c, roles[k])
  }

  lemma AddRoleInOrder(rd: Reading, c: Capture, roles: seq<Role>, role: string, ip: string, evidence: Pointer)
    requires RolesInOrder(roles) && AllCiteFirst(rd, c, roles)
    requires forall k :: 0 <= k < |roles| ==> RoleFirst(roles[k], Role(role, ip, evidence))
    requires !Lists(roles, role, ip) && ip != "" ==> CitesFirst(rd, c, Role(role, ip, evidence))
    ensures RolesInOrder(AddRole(roles, role, ip, evidence)) && AllCiteFirst(rd, c, AddRole(roles, role, ip, evidence))
    ensures forall k :: 0 <= k < |AddRole(roles, role, ip, evidence)| ==>
              AddRole(roles, role, ip, evidence)[k] in roles
              || AddRole(roles, role, ip, evidence)[k] == Role(role, ip, evidence)
  {
    hide RoleFirst, CitesFirst;
  }

  lemma N2RolesInOrder(rd: Reading, c: Capture)
    ensures RolesInOrder(N2Roles(c)) && AllCiteFirst(rd, c, N2Roles(c))
    ensures forall k :: 0 <= k < |N2Roles(c)| ==> N2Roles(c)[k].evidence.FlowMessage?
  {
    FirstNamedMeaning(c.flows, "InitialUEMessage");
    var initial := FirstNamed(c.flows, "InitialUEMessage");
    if initial.Some? {
      var (f, m) := initial.value;
      var message, p := c.flows[f].messages[m], FlowMessage(f, m);
      FirstCites(rd, c, Role("gNB", message.src, p));
      FirstCites(rd, c, Role("AMF", message.dst, p));
      AddRoleInOrder(rd, c, [], "gNB", message.src, p);
      AddRoleInOrder(rd, c, AddRole([], "gNB", message.src, p), "AMF", message.dst, p);
    }
    hide FirstNamed, CitesFirst;
  }

  lemma FirstCites(rd: Reading, c: Capture, r: Role)
    requires r.evidence.FlowMessage? && IsFirstNamed(c.flows, "InitialUEMessage", r.evidence.flow, r.evidence.index)
    ensures CitesFirst(rd, c, r)
  {
    forall p | ShowsRole(rd, c, p, r.role, r.ip)
      ensures !Precedes(p, r.evidence)
    {
      if p.FlowMessage? {
        FirstIsUnique(c.flows, "InitialUEMessage", p.flow, p.index, r.evidence.flow, r.evidence.index);
      }
    }
  }

  lemma N4RolesInOrder(rd: Reading, c: Capture, roles: seq<Role>)
    requires RolesInOrder(roles) && AllCiteFirst(rd, c, roles)
    requires forall k :: 0 <= k < |roles| ==> roles[k].evidence.FlowMessage?
    requires ListsShown(rd, c, roles, false)
    ensures RolesInOrder(WithN4Roles(rd, c, roles)) && AllCiteFirst(rd, c, WithN4Roles(rd, c, roles))
    ensures forall k :: 0 <= k < |WithN4Roles(rd, c, roles)| ==>
              var p := WithN4Roles(rd, c, roles)[k].evidence;
              p.FlowMessage? || (p.PlaneMessage? && p.plane == N4)
  {
    N4ProofMeaning(rd, c.n4.messages);
    var proof := N4Proof(rd, c.n4.messages);
    hide Lists, IsN4Proof, ListsShown;
    if proof.Some? {
      var message, p := c.n4.messages[proof.value], PlaneMessage(N4, proof.value);
      N4Cites(rd, c, roles, Role("SMF", message.src, p));
      AddRoleInOrder(rd, c, roles, "SMF", message.src, p);
      var one := AddRole(roles, "SMF", message.src, p);
      AddRoleLists(roles, "SMF", message.src, p, "UPF", message.dst);
      N4Cites(rd, c, roles, Role("UPF", message.dst, p));
      AddRoleInOrder(rd, c, one, "UPF", message.dst, p);
    }
  }

  lemma N4Cites(rd: Reading, c: Capture, roles: seq<Role>, r: Role)
    requires r.evidence.PlaneMessage? && r.evidence.plane == N4 && IsN4Proof(rd, c.n4.messages, r.evidence.index)
    requires ListsShown(rd, c, roles, false)
    ensures Lists(roles, r.role, r.ip) || CitesFirst(rd, c, r)
  {
    hide Lists;
  }

  /** Every role that the flows, or the flows and N4, show is listed. */
  ghost predicate ListsShown(rd: Reading, c: Capture, roles: seq<Role>, n4: bool) {
    forall p, role, ip ::
      ShowsRole(rd, c, p, role, ip) && (p.FlowMessage? || (n4 && p.PlaneMessage? && p.plane == N4)) ==>
        Lists(roles, role, ip)
  }

  lemma ShownAreListed(rd: Reading, c: Capture)
    ensures ListsShown(rd, c, N2Roles(c), false) && ListsShown(rd, c, WithN4Roles(rd, c, N2Roles(c)), true)
  {
    N2RolesAreExact(rd, c);
    N4RolesAreExact(rd, c, N2Roles(c));
    hide Lists, ShowsRole, N2Roles, WithN4Roles;
  }

  lemma {:induction false} ProducersInOrder(rd: Reading, c: Capture, roles: seq<Role>, n: nat)
    requires RolesInOrder(roles) && AllCiteFirst(rd, c, roles) && AllShown(rd, c, roles) && n <= |c.sbi.messages|
    requires forall k :: 0 <= k < |roles| ==>
               var p := roles[k].evidence;
               p.FlowMessage? || (p.PlaneMessage? && p.plane == N4)
    requires ListsShown(rd, c, roles, true)
    ensures var all := ProducerRoles(rd, roles, c.sbi.messages[..n]);
            && RolesInOrder(all) && AllCiteFirst(rd, c, all)
            && forall k :: 0 <= k < |all| ==>
                 var p := all[k].evidence;
                 p.FlowMessage? || (p.PlaneMessage? && (p.plane == N4 || p.index < n))
  {
    hide Lists, CitesFirst, ShowsRole, AllShown, Produces, ProducedBefore, ListsShown;
    if n > 0 {
      TakeSnoc(c.sbi.messages, n - 1);
      ProducersInOrder(rd, c, roles, n - 1);
      ProducerRolesAreExact(rd, c, roles, n - 1);
      var m := c.sbi.messages[n - 1];
      var before := ProducerRoles(rd, roles, c.sbi.messages[..n - 1]);
      if m.request && rd.producer(m.name).Some? && rd.producer(m.name).value != "" {
        var r := Role(rd.producer(m.name).value, m.dst, PlaneMessage(Sbi, n - 1));
        ProducerCites(rd, c, roles, before, n - 1, r);
        AddRoleInOrder(rd, c, before, r.role, r.ip, r.evidence);
      }
    }
  }

  lemma ProducerCites(rd: Reading, c: Capture, roles: seq<Role>, before: seq<Role>, n: nat, r: Role)
    requires n < |c.sbi.messages| && r.evidence == PlaneMessage(Sbi, n)
    requires forall role, i :: Lists(before, role, i) <==> Lists(roles, role, i) || ProducedBefore(rd, c, n, role, i)
    requires ListsShown(rd, c, roles, true)
    ensures Lists(before, r.role, r.ip) || CitesFirst(rd, c, r)
  {
    if !Lists(before, r.role, r.ip) {
      forall p | ShowsRole(rd, c, p, r.role, r.ip)
        ensures !Precedes(p, r.evidence)
      {
        hide Lists;
      }
    }
  }

  /** The roles found are the ones the messages show, in order. */
  lemma RolesAreInOrder(rd: Reading, c: Capture)
    ensures AreRoles(rd, c, RolesOf(rd, c))
  {
    hide *;
    var n2, ms := N2Roles(c), c.sbi.messages;
    var n4 := WithN4Roles(rd, c, n2);
    RolesAre(rd, c);
    N2RolesInOrder(rd, c);
    N2RolesAreExact(rd, c);
    ShownAreListed(rd, c);
    N4RolesInOrder(rd, c, n2);
    N4RolesAreExact(rd, c, n2);
    ProducersInOrder(rd, c, n4, |ms|);
    assert ms[..|ms|] == ms;
    RolesAreExact(rd, c);
    AreRolesIs(rd, c, RolesOf(rd, c));
  }

  lemma RolesAre(rd: Reading, c: Capture)
    ensures RolesOf(rd, c) == ProducerRoles(rd, WithN4Roles(rd, c, N2Roles(c)), c.sbi.messages)
  {
  }

  lemma AreRolesIs(rd: Reading, c: Capture, roles: seq<Role>)
    requires AllShown(rd, c, roles) && RolesInOrder(roles) && AllCiteFirst(rd, c, roles)
    requires forall role, ip :: Lists(roles, role, ip) <==> exists p :: ShowsRole(rd, c, p, role, ip)
    ensures AreRoles(rd, c, roles)
  {
    hide ShowsRole, CitesFirst, Lists;
  }

  // ----- The radius, stated on the messages and procedures -----

  /** Message m stands at p. */
  ghost predicate StandsAt(c: Capture, p: Pointer, m: Message) {
    match p
    case FlowMessage(f, i) => f < |c.flows| && i < |c.flows[f].messages| && m == c.flows[f].messages[i]
    case PlaneMessage(N4, i) => i < |c.n4.messages| && m == c.n4.messages[i]
    case PlaneMessage(Sbi, i) => i < |c.sbi.messages| && m == c.sbi.messages[i]
    case _ => false
  }

  /** The message at p goes from one of the two addresses to the other. */
  ghost predicate Shares(c: Capture, p: Pointer, a: string, b: string) {
    a != b && b != "" && exists m :: StandsAt(c, p, m) && ((m.src == a && m.dst == b) || (m.src == b && m.dst == a))
  }

  ghost predicate SharesFirst(c: Capture, p: Pointer, a: string, b: string) {
    Shares(c, p, a, b) && forall q :: Shares(c, q, a, b) ==> !Precedes(q, p)
  }

  /** r is the last role listed for the address. */
  ghost predicate HasRole(roles: seq<Role>, ip: string, r: Role) {
    exists k: nat :: k < |roles| && roles[k] == r && r.ip == ip && forall l :: k < l < |roles| ==> roles[l].ip != ip
  }

  ghost predicate HasEnd(ms: seq<Message>, ip: string) {
    ip != "" && exists m :: m in ms && (m.src == ip || m.dst == ip)
  }

  /** Flow number f is the last with the id, and refers to an SBI message with the address at one end. */
  ghost predicate RefersTo(c: Capture, id: int, f: nat, ip: string) {
    && f < |c.flows| && c.flows[f].flowId == Some(id)
    && (forall g :: f < g < |c.flows| ==> c.flows[g].flowId != Some(id))
    && exists ref :: ref in c.flows[f].sbiRefs && 0 <= ref < |c.sbi.messages| && HasEnd([c.sbi.messages[ref]], ip)
  }

  /** Procedure x stands at p and touches the NF: a flow's touch the ends of its messages, an N4 one the SMF and the
      UPF, an SBI one the ends of the messages that its flow refers to. */
  ghost predicate Reaches(c: Capture, p: Pointer, x: Procedure, role: string, ip: string) {
    match p
    case FlowProcedure(f, i) =>
      f < |c.flows| && i < |c.flows[f].procedures| && x == c.flows[f].procedures[i] && HasEnd(c.flows[f].messages, ip)
    case PlaneProcedure(N4, i) =>
      i < |c.n4.procedures| && x == c.n4.procedures[i] && (role == "SMF" || role == "UPF")
    case PlaneProcedure(Sbi, i) =>
      && i < |c.sbi.procedures| && x == c.sbi.procedures[i]
      && x.flowId.Some? && exists f: nat :: RefersTo(c, x.flowId.value, f, ip)
    case _ => false
  }

  /** The NF lists the procedures that touch it, in order, and counts them. */
  ghost predicate IsLoaded(c: Capture, nf: AffectedNF) {
    var hits := nf.procedures;
    && (forall h :: h in hits <==>
          exists x :: Reaches(c, h.pointer, x, nf.role, nf.ip) && h.kind == x.kind && h.outcome == x.outcome)
    && HitsInOrder(hits)
    && nf.kpis.count == |hits|
    && nf.kpis.successes == |WithOutcome(hits, "accept")| && nf.kpis.failures == |WithOutcome(hits, "reject")|
  }

  ghost predicate HitsInOrder(hits: seq<Hit>) {
    forall k, l :: 0 <= k < l < |hits| ==> Precedes(hits[k].pointer, hits[l].pointer)
  }

  ghost function WithOutcome(hits: seq<Hit>, outcome: string): set<int> {
    set k | 0 <= k < |hits| && hits[k].outcome == outcome
  }

  /** The affected NFs are those that share a message with the target and have another role, by role and address, each
      loaded; the unknown peers share one and have no role, each with the first such message. */
  ghost predicate IsRadius(rd: Reading, roles: seq<Role>, target: Role, c: Capture, result: BlastResult,
                           unknown: seq<string>)
  {
    && (forall k :: 0 <= k < |result.affected| ==>
          var nf := result.affected[k];
          (exists p :: Shares(c, p, target.ip, nf.ip)) && IsLoaded(c, nf)
          && HasRole(roles, nf.ip, Role(nf.role, nf.ip, nf.evidence)) && rd.upper(nf.role) != rd.upper(target.role))
    && (forall p, r: Role ::
          Shares(c, p, target.ip, r.ip) && HasRole(roles, r.ip, r) && rd.upper(r.role) != rd.upper(target.role) ==>
            exists k :: 0 <= k < |result.affected| && result.affected[k].ip == r.ip)
    && (forall k, l :: 0 <= k < l < |result.affected| ==> NfFirst(result.affected[k], result.affected[l]))
    && |unknown| == |result.unknownPointers| == result.unknownPeers && Distinct(unknown)
    && (forall ip :: ip in unknown <==> (exists p :: Shares(c, p, target.ip, ip)) && forall r :: !HasRole(roles, ip, r))
    && (forall k :: 0 <= k < |unknown| ==> SharesFirst(c, result.unknownPointers[k], target.ip, unknown[k]))
  }

  ghost predicate NfFirst(x: AffectedNF, y: AffectedNF) {
    || (x.role != y.role && Leq(x.role, y.role))
    || (x.role == y.role && x.ip != y.ip && Leq(x.ip, y.ip))
  }

  // The scan lists the messages in order.

  ghost predicate IsScan(c: Capture, scan: Scan) {
    && (forall k :: 0 <= k < |scan| ==> StandsAt(c, scan[k].0, scan[k].1))
    && (forall k, l :: 0 <= k < l < |scan| ==> Precedes(scan[k].0, scan[l].0))
  }

  ghost predicate Scanned(scan: Scan, p: Pointer, m: Message) {
    exists k :: 0 <= k < |scan| && scan[k] == (p, m)
  }

  lemma ScanConcat(c: Capture, a: Scan, b: Scan)
    requires IsScan(c, a) && IsScan(c, b)
    requires forall k, l :: 0 <= k < |a| && 0 <= l < |b| ==> Precedes(a[k].0, b[l].0)
    ensures IsScan(c, a + b)
    ensures forall p, m :: Scanned(a, p, m) || Scanned(b, p, m) ==> Scanned(a + b, p, m)
  {
    hide StandsAt, Precedes;
    forall p, m | Scanned(b, p, m)
      ensures Scanned(a + b, p, m)
    {
      var k :| 0 <= k < |b| && b[k] == (p, m);
      assert (a + b)[|a| + k] == (p, m);
    }
    forall p, m | Scanned(a, p, m)
      ensures Scanned(a + b, p, m)
    {
      var k :| 0 <= k < |a| && a[k] == (p, m);
      assert (a + b)[k] == (p, m);
    }
  }

  lemma {:induction false} FlowsAreScanned(c: Capture, n: nat)
    requires n <= |c.flows|
    ensures var scan := FlowsScan(c.flows[..n]);
            && IsScan(c, scan) && (forall k :: 0 <= k < |scan| ==> scan[k].0.FlowMessage? && scan[k].0.flow < n)
            && forall p, m :: StandsAt(c, p, m) && p.FlowMessage? && p.flow < n ==> Scanned(scan, p, m)
  {
    if n > 0 {
      FlowsAreScanned(c, n - 1);
      TakeSnoc(c.flows, n - 1);
      var before, own := FlowsScan(c.flows[..n - 1]), FlowScan(n - 1, c.flows[n - 1].messages);
      ScanConcat(c, before, own);
      assert FlowsScan(c.flows[..n]) == before + own;
      forall p, m | StandsAt(c, p, m) && p.FlowMessage? && p.flow < n
        ensures Scanned(before + own, p, m)
      {
        if p.flow == n - 1 {
          assert own[p.index] == (p, m);
          assert Scanned(own, p, m);
        }
      }
    }
  }

  lemma PlaneIsScanned(c: Capture, plane: Plane)
    ensures var scan := PlaneScan(plane, if plane == N4 then c.n4.messages else c.sbi.messages);
            && IsScan(c, scan) && (forall k :: 0 <= k < |scan| ==> scan[k].0.PlaneMessage? && scan[k].0.plane == plane)
            && forall p, m :: StandsAt(c, p, m) && p.PlaneMessage? && p.plane == plane ==> Scanned(scan, p, m)
  {
    var scan := PlaneScan(plane, if plane == N4 then c.n4.messages else c.sbi.messages);
    forall p, m | StandsAt(c, p, m) && p.PlaneMessage? && p.plane == plane
      ensures Scanned(scan, p, m)
    {
      assert scan[p.index] == (p, m);
    }
  }

  lemma CaptureIsScanned(c: Capture)
    ensures IsScan(c, WholeScan(c)) && forall p, m :: StandsAt(c, p, m) ==> Scanned(WholeScan(c), p, m)
  {
    hide StandsAt, Scanned, IsScan, FlowsScan, PlaneScan;
    var flows, n4, sbi := FlowsScan(c.flows), PlaneScan(N4, c.n4.messages), PlaneScan(Sbi, c.sbi.messages);
    FlowsAreScanned(c, |c.flows|);
    assert c.flows[..|c.flows|] == c.flows;
    PlaneIsScanned(c, N4);
    PlaneIsScanned(c, Sbi);
    ScanConcat(c, flows, n4);
    ScanConcat(c, flows + n4, sbi);
    forall p, m | StandsAt(c, p, m)
      ensures Scanned(WholeScan(c), p, m)
    {
      StandsSomewhere(c, p, m);
    }
  }

  lemma StandsSomewhere(c: Capture, p: Pointer, m: Message)
    requires StandsAt(c, p, m)
    ensures (p.FlowMessage? && p.flow < |c.flows|) || p.PlaneMessage?
  {
  }

  lemma MeetsIsShared(t: Target, c: Capture, ip: string, p: Pointer)
    ensures Shares(c, p, t.role.ip, ip) <==>
            exists k :: 0 <= k < |WholeScan(c)| && WholeScan(c)[k].0 == p && Meets(t, WholeScan(c)[k].1, ip)
  {
    hide WholeScan, StandsAt, Precedes;
    var scan := WholeScan(c);
    CaptureIsScanned(c);
    if Shares(c, p, t.role.ip, ip) {
      var m :| StandsAt(c, p, m) && ((m.src == t.role.ip && m.dst == ip) || (m.src == ip && m.dst == t.role.ip));
      assert Scanned(scan, p, m);
    }
    if k :| 0 <= k < |scan| && scan[k].0 == p && Meets(t, scan[k].1, ip) {
      assert StandsAt(c, p, scan[k].1);
    }
  }

  lemma SeenIsShared(t: Target, c: Capture, ip: string)
    ensures Seen(t, WholeScan(c), ip) <==> exists p :: Shares(c, p, t.role.ip, ip)
  {
    hide WholeScan, Shares, Meets;
    forall p {
      MeetsIsShared(t, c, ip, p);
    }
    var scan := WholeScan(c);
    if k :| 0 <= k < |scan| && Meets(t, scan[k].1, ip) {
      assert Shares(c, scan[k].0, t.role.ip, ip);
    }
  }

  lemma FirstIsShared(t: Target, c: Capture, ip: string, p: Pointer)
    requires FirstMeets(t, WholeScan(c), ip, p)
    ensures SharesFirst(c, p, t.role.ip, ip)
  {
    hide WholeScan, Shares, Meets, StandsAt, Precedes;
    var scan := WholeScan(c);
    CaptureIsScanned(c);
    MeetsIsShared(t, c, ip, p);
    var k :| 0 <= k < |scan| && scan[k].0 == p && Meets(t, scan[k].1, ip)
             && forall j :: 0 <= j < k ==> !Meets(t, scan[j].1, ip);
    forall q | Shares(c, q, t.role.ip, ip)
      ensures !Precedes(q, p)
    {
      MeetsIsShared(t, c, ip, q);
      var j :| 0 <= j < |scan| && scan[j].0 == q && Meets(t, scan[j].1, ip);
      PrecedesOneWay(p, q);
      PrecedesOneWay(p, p);
    }
  }

  lemma PrecedesOneWay(p: Pointer, q: Pointer)
    ensures !(Precedes(p, q) && Precedes(q, p)) && !Precedes(p, p)
  {
  }

  lemma {:induction false} RoleAtIsLast(roles: seq<Role>, ip: string)
    ensures forall r :: RoleAt(roles, ip) == Some(r) <==> HasRole(roles, ip, r)
  {
    if roles != [] {
      var before, last := roles[..|roles| - 1], roles[|roles| - 1];
      RoleAtIsLast(before, ip);
      forall r
        ensures HasRole(roles, ip, r) <==> if last.ip == ip then r == last else HasRole(before, ip, r)
      {
        if last.ip == ip {
          assert roles[|before|] == last;
        } else if HasRole(before, ip, r) {
          var k: nat :| k < |before| && before[k] == r && r.ip == ip
                        && forall l :: k < l < |before| ==> before[l].ip != ip;
          assert roles[k] == r && forall l :: k < l < |roles| ==> roles[l].ip != ip;
        }
        if last.ip != ip && HasRole(roles, ip, r) {
          var k: nat :| k < |roles| && roles[k] == r && r.ip == ip
                        && forall l :: k < l < |roles| ==> roles[l].ip != ip;
          assert before[k] == r;
        }
      }
    }
  }

  // The attributions list the procedures in order.

  /** Attribution a is the procedure that stands at its pointer, and touches an NF exactly when that reaches it. */
  ghost predicate IsAttribution(c: Capture, a: Attribution) {
    forall role, ip, x ::
      Reaches(c, a.pointer, x, role, ip) <==> x == a.procedure && Touches(a.touch, role, ip)
  }

  ghost predicate AreAttributions(c: Capture, s: seq<Attribution>) {
    && (forall k :: 0 <= k < |s| ==> IsAttribution(c, s[k]))
    && (forall k, l :: 0 <= k < l < |s| ==> Precedes(s[k].pointer, s[l].pointer))
  }

  lemma {:induction false} EndsAre(ms: seq<Message>)
    ensures forall ip :: ip in Ends(ms) <==> HasEnd(ms, ip)
  {
    if ms != [] {
      var before, m := ms[..|ms| - 1], ms[|ms| - 1];
      EndsAre(before);
      assert forall x :: x in ms <==> x in before || x == m;
      forall ip
        ensures HasEnd(ms, ip) <==> HasEnd(before, ip) || (ip != "" && (m.src == ip || m.dst == ip))
      {
      }
    }
  }

  lemma FlowIsAttributed(c: Capture, f: nat)
    requires f < |c.flows|
    ensures var s := FlowAttributions(f, c.flows[f]);
            && AreAttributions(c, s)
            && forall k :: 0 <= k < |s| ==> s[k].pointer.FlowProcedure? && s[k].pointer.flow == f
  {
    EndsAre(c.flows[f].messages);
    hide Ends, HasEnd;
  }

  lemma AttributionsConcat(c: Capture, a: seq<Attribution>, b: seq<Attribution>)
    requires AreAttributions(c, a) && AreAttributions(c, b)
    requires forall k, l :: 0 <= k < |a| && 0 <= l < |b| ==> Precedes(a[k].pointer, b[l].pointer)
    ensures AreAttributions(c, a + b)
  {
    hide IsAttribution, Precedes;
  }

  lemma {:induction false} FlowsAreAttributed(c: Capture, n: nat)
    requires n <= |c.flows|
    ensures var s := FlowsAttributions(c.flows[..n]);
            && AreAttributions(c, s)
            && (forall k :: 0 <= k < |s| ==> s[k].pointer.FlowProcedure? && s[k].pointer.flow < n)
            && forall f, i :: 0 <= f < n && 0 <= i < |c.flows[f].procedures| ==> IsPointer(s, FlowProcedure(f, i))
  {
    hide AreAttributions, IsAttribution;
    if n > 0 {
      FlowsAreAttributed(c, n - 1);
      FlowIsAttributed(c, n - 1);
      TakeSnoc(c.flows, n - 1);
      var before, own := FlowsAttributions(c.flows[..n - 1]), FlowAttributions(n - 1, c.flows[n - 1]);
      AttributionsConcat(c, before, own);
      assert FlowsAttributions(c.flows[..n]) == before + own;
      forall f, i | 0 <= f < n && 0 <= i < |c.flows[f].procedures|
        ensures IsPointer(before + own, FlowProcedure(f, i))
      {
        PointerConcat(before, own, FlowProcedure(f, i));
        if f == n - 1 {
          assert own[i].pointer == FlowProcedure(f, i);
        }
      }
    } else {
      NoAttributions(c);
    }
  }

  lemma NoAttributions(c: Capture)
    ensures AreAttributions(c, [])
  {
  }

  lemma PointerConcat(a: seq<Attribution>, b: seq<Attribution>, p: Pointer)
    ensures IsPointer(a + b, p) <==> IsPointer(a, p) || IsPointer(b, p)
  {
    if j :| 0 <= j < |a| && a[j].pointer == p {
      assert (a + b)[j].pointer == p;
    }
    if j :| 0 <= j < |b| && b[j].pointer == p {
      assert (a + b)[|a| + j].pointer == p;
    }
    if j :| 0 <= j < |a + b| && (a + b)[j].pointer == p {
      assert j < |a| ==> a[j].pointer == p;
      assert j >= |a| ==> b[j - |a|].pointer == p;
    }
  }

  lemma N4IsAttributed(c: Capture)
    ensures var s := N4Attributions(c.n4.procedures);
            && AreAttributions(c, s) && |s| == |c.n4.procedures|
            && forall k :: 0 <= k < |s| ==> s[k].pointer == PlaneProcedure(N4, k)
  {
  }

  lemma {:induction false} FlowByIdIsLast(flows: seq<Flow>, id: int)
    ensures FlowById(flows, id).None? <==> forall f :: 0 <= f < |flows| ==> flows[f].flowId != Some(id)
    ensures forall f :: 0 <= f < |flows| && flows[f].flowId == Some(id)
                        && (forall g :: f < g < |flows| ==> flows[g].flowId != Some(id)) ==>
              FlowById(flows, id) == Some(flows[f])
    ensures FlowById(flows, id).Some? ==>
              exists f :: 0 <= f < |flows| && flows[f].flowId == Some(id) && FlowById(flows, id) == Some(flows[f])
                          && forall g :: f < g < |flows| ==> flows[g].flowId != Some(id)
  {
    if flows != [] {
      var before := flows[..|flows| - 1];
      FlowByIdIsLast(before, id);
      assert forall f :: 0 <= f < |before| ==> before[f] == flows[f];
    }
  }

  lemma {:induction false} ReferencedAre(refs: seq<int>, ms: seq<Message>)
    ensures forall m :: m in Referenced(refs, ms) <==> exists ref :: ref in refs && 0 <= ref < |ms| && ms[ref] == m
  {
    if refs != [] {
      ReferencedAre(refs[..|refs| - 1], ms);
    }
  }

  lemma SbiIpsAre(c: Capture, x: Procedure, ip: string)
    ensures ip in SbiIps(c, x) <==> x.flowId.Some? && exists f: nat :: RefersTo(c, x.flowId.value, f, ip)
  {
    if x.flowId.Some? {
      FlowByIdIsLast(c.flows, x.flowId.value);
      var flow := FlowById(c.flows, x.flowId.value);
      if flow.Some? {
        EndsAre(Referenced(flow.value.sbiRefs, c.sbi.messages));
        ReferencedAre(flow.value.sbiRefs, c.sbi.messages);
        RefersBy(c, x.flowId.value, flow.value, ip);
      }
      hide Ends, Referenced, FlowById, HasEnd;
    }
  }

  lemma RefersBy(c: Capture, id: int, flow: Flow, ip: string)
    requires FlowById(c.flows, id) == Some(flow)
    requires forall m :: m in Referenced(flow.sbiRefs, c.sbi.messages) <==>
               exists ref :: ref in flow.sbiRefs && 0 <= ref < |c.sbi.messages| && c.sbi.messages[ref] == m
    ensures HasEnd(Referenced(flow.sbiRefs, c.sbi.messages), ip) <==> exists f: nat :: RefersTo(c, id, f, ip)
  {
    FlowByIdIsLast(c.flows, id);
    hide FlowById, Referenced;
    var ms := Referenced(flow.sbiRefs, c.sbi.messages);
    var last :| 0 <= last < |c.flows| && c.flows[last].flowId == Some(id) && c.flows[last] == flow
                && forall g :: last < g < |c.flows| ==> c.flows[g].flowId != Some(id);
    if HasEnd(ms, ip) {
      var m :| m in ms && (m.src == ip || m.dst == ip);
      var ref :| ref in flow.sbiRefs && 0 <= ref < |c.sbi.messages| && c.sbi.messages[ref] == m;
      assert m in [c.sbi.messages[ref]];
      assert RefersTo(c, id, last, ip);
    }
    if f: nat :| RefersTo(c, id, f, ip) {
      assert c.flows[f] == flow;
      var ref :| ref in flow.sbiRefs && 0 <= ref < |c.sbi.messages| && HasEnd([c.sbi.messages[ref]], ip);
      assert c.sbi.messages[ref] in ms;
    }
  }

  lemma SbiIsAttributed(c: Capture)
    ensures var s := SbiAttributions(c);
            && AreAttributions(c, s) && |s| == |c.sbi.procedures|
            && forall k :: 0 <= k < |s| ==> s[k].pointer == PlaneProcedure(Sbi, k)
  {
    hide SbiIps, RefersTo;
    forall x, ip {
      SbiIpsAre(c, x, ip);
    }
  }

  lemma CaptureIsAttributed(c: Capture)
    ensures AreAttributions(c, Attributions(c))
    ensures forall p, x, role, ip :: Reaches(c, p, x, role, ip) ==> IsPointer(Attributions(c), p)
  {
    hide FlowsAttributions, N4Attributions, SbiAttributions, AreAttributions, IsPointer;
    var flows, n4, sbi := FlowsAttributions(c.flows), N4Attributions(c.n4.procedures), SbiAttributions(c);
    FlowsAreAttributed(c, |c.flows|);
    assert c.flows[..|c.flows|] == c.flows;
    N4IsAttributed(c);
    SbiIsAttributed(c);
    AttributionsConcat(c, flows, n4);
    AttributionsConcat(c, flows + n4, sbi);
    forall p, x, role, ip | Reaches(c, p, x, role, ip)
      ensures IsPointer(Attributions(c), p)
    {
      PointerConcat(flows, n4, p);
      PointerConcat(flows + n4, sbi, p);
      PlacesListed(n4, p);
      PlacesListed(sbi, p);
    }
  }

  lemma PlacesListed(s: seq<Attribution>, p: Pointer)
    ensures p.PlaneProcedure? && p.index < |s| && s[p.index].pointer == p ==> IsPointer(s, p)
  {
  }

  ghost predicate IsHit(c: Capture, h: Hit, role: string, ip: string) {
    exists x :: Reaches(c, h.pointer, x, role, ip) && h.kind == x.kind && h.outcome == x.outcome
  }

  lemma {:induction false} HitsAre(c: Capture, s: seq<Attribution>, role: string, ip: string)
    requires AreAttributions(c, s)
    ensures forall h :: h in Hits(s, role, ip) <==> IsPointer(s, h.pointer) && IsHit(c, h, role, ip)
    ensures HitsInOrder(Hits(s, role, ip))
  {
    hide Reaches, Touches, Precedes, IsHit, IsPointer;
    if s == [] {
      forall h: Hit
        ensures !IsPointer(s, h.pointer)
      {
        NoPointer(h.pointer);
      }
    } else {
      var before, a := s[..|s| - 1], s[|s| - 1];
      HitsAre(c, before, role, ip);
      assert s == before + [a];
      var earlier := Hits(before, role, ip);
      LastPointer(c, before, a);
      assert forall x :: x in earlier ==> IsPointer(before, x.pointer);
      InOrderSnoc(earlier, Hit(a.pointer, a.procedure.kind, a.procedure.outcome));
      assert earlier + [] == earlier;
      forall h: Hit
        ensures h in Hits(s, role, ip) <==> IsPointer(s, h.pointer) && IsHit(c, h, role, ip)
      {
        if h.pointer == a.pointer {
          LastHit(c, a, h, role, ip);
        }
      }
    }
  }

  lemma InOrderSnoc(earlier: seq<Hit>, h: Hit)
    requires HitsInOrder(earlier) && forall x :: x in earlier ==> Precedes(x.pointer, h.pointer)
    ensures HitsInOrder(earlier + [h])
  {
    hide Precedes;
    var hits := earlier + [h];
    forall k, l | 0 <= k < l < |hits|
      ensures Precedes(hits[k].pointer, hits[l].pointer)
    {
      assert hits[k] == earlier[k] && earlier[k] in earlier;
      assert l < |earlier| ==> hits[l] == earlier[l];
    }
  }

  lemma NoPointer(p: Pointer)
    ensures !IsPointer([], p)
  {
  }

  lemma LastPointer(c: Capture, before: seq<Attribution>, a: Attribution)
    requires AreAttributions(c, before + [a])
    ensures forall p :: IsPointer(before + [a], p) <==> IsPointer(before, p) || p == a.pointer
    ensures forall p :: IsPointer(before, p) ==> Precedes(p, a.pointer)
    ensures IsAttribution(c, a) && !IsPointer(before, a.pointer)
  {
    var s := before + [a];
    assert s[|before|] == a && [a][0] == a;
    PrecedesOneWay(a.pointer, a.pointer);
    forall p
      ensures IsPointer(s, p) <==> IsPointer(before, p) || p == a.pointer
    {
      PointerConcat(before, [a], p);
    }
    forall p | IsPointer(before, p)
      ensures Precedes(p, a.pointer)
    {
      var j :| 0 <= j < |before| && before[j].pointer == p;
      assert s[j] == before[j];
    }
  }

  lemma LastHit(c: Capture, a: Attribution, h: Hit, role: string, ip: string)
    requires IsAttribution(c, a) && h.pointer == a.pointer
    ensures IsHit(c, h, role, ip) <==>
            Touches(a.touch, role, ip) && h == Hit(a.pointer, a.procedure.kind, a.procedure.outcome)
  {
    hide Reaches, Touches;
    assert Reaches(c, a.pointer, a.procedure, role, ip) <==> Touches(a.touch, role, ip);
  }

  lemma {:induction false} CountIsCardinality(hits: seq<Hit>, outcome: string)
    ensures CountOutcome(hits, outcome) == |WithOutcome(hits, outcome)|
  {
    if hits == [] {
      assert WithOutcome(hits, outcome) == {};
    } else {
      var before, n := hits[..|hits| - 1], |hits| - 1;
      CountIsCardinality(before, outcome);
      assert n !in WithOutcome(before, outcome);
      assert WithOutcome(hits, outcome)
             == WithOutcome(before, outcome) + if hits[n].outcome == outcome then {n} else {};
    }
  }

  lemma CarriesIsLoaded(c: Capture, nf: AffectedNF, r: Role, ip: string)
    requires Carries(nf, r, ip, Attributions(c))
    ensures IsLoaded(c, nf) && nf.role == r.role && nf.ip == ip && nf.evidence == r.evidence
  {
    hide Attributions, Reaches, Precedes, Hits, AreAttributions, IsPointer, CountOutcome, WithOutcome,
         HitsInOrder;
    CaptureIsAttributed(c);
    HitsAre(c, Attributions(c), r.role, ip);
    CountIsCardinality(nf.procedures, "accept");
    CountIsCardinality(nf.procedures, "reject");
    forall h: Hit
      ensures h in nf.procedures <==>
              exists x :: Reaches(c, h.pointer, x, nf.role, nf.ip) && h.kind == x.kind && h.outcome == x.outcome
    {
      assert h in nf.procedures <==> IsPointer(Attributions(c), h.pointer) && IsHit(c, h, r.role, ip);
    }
    hide IsHit;
    assert nf.kpis.count == |nf.procedures|;
  }

  /** What explains the endpoints is the radius. */
  lemma ExplainsRadius(t: Target, c: Capture, result: BlastResult, unknown: seq<string>)
    requires Explains(t, c, result, unknown)
    ensures IsRadius(t.rd, t.roles, t.role, c, result, unknown)
  {
    hide WholeScan, Attributions, Seen, Shares, HasRole, RoleAt, IsLoaded, FirstMeets, SharesFirst, Leq, Carries;
    forall ip
      ensures Seen(t, WholeScan(c), ip) <==> exists p :: Shares(c, p, t.role.ip, ip)
      ensures forall r :: RoleAt(t.roles, ip) == Some(r) <==> HasRole(t.roles, ip, r)
    {
      SeenIsShared(t, c, ip);
      RoleAtIsLast(t.roles, ip);
    }
    forall k | 0 <= k < |result.affected|
      ensures var nf := result.affected[k];
              IsLoaded(c, nf) && HasRole(t.roles, nf.ip, Role(nf.role, nf.ip, nf.evidence))
              && t.rd.upper(nf.role) != t.rd.upper(t.role.role)
    {
      var nf := result.affected[k];
      var role := RoleAt(t.roles, nf.ip).value;
      CarriesIsLoaded(c, nf, role, nf.ip);
      RoleHasIp(t.roles, nf.ip, role);
    }
    forall k | 0 <= k < |unknown|
      ensures SharesFirst(c, result.unknownPointers[k], t.role.ip, unknown[k])
    {
      FirstIsShared(t, c, unknown[k], result.unknownPointers[k]);
    }
    forall p, r: Role | Shares(c, p, t.role.ip, r.ip) && HasRole(t.roles, r.ip, r)
                        && t.rd.upper(r.role) != t.rd.upper(t.role.role)
      ensures exists k :: 0 <= k < |result.affected| && result.affected[k].ip == r.ip
    {
      assert IsAffected(t, c, r.ip);
    }
  }

  lemma RoleHasIp(roles: seq<Role>, ip: string, r: Role)
    requires HasRole(roles, ip, r)
    ensures r.ip == ip
  {
  }
}
