/** Grouping N2 messages into per-UE flows (5gcap/fivegcap/flow.py:55-163).
    The source makes one pass over the capture with dictionaries keyed by UE;
    the specification groups first and then looks at one UE at a time. */
module Flows {
  import opened Common
  import opened Messages
  import opened FlowProcedures

  /** The unordered association and the RAN UE id. */
  type UeKey = (set<int>, Option<int>)

  function KeyOf(m: NgapMsg): UeKey {
    ({m.assoc.0, m.assoc.1}, m.ranUeId)
  }

  ghost predicate IsUe(m: NgapMsg) {
    m.ranUeId.Some? || m.amfUeId.Some?
  }

  function SortedAssoc(a: (int, int)): (int, int) {
    if a.0 <= a.1 then a else (a.1, a.0)
  }

  /** What the rest of the tool reads of a flow. */
  datatype FlowView = FlowView(
    flowId: nat, assoc: (int, int), ranUeId: Option<int>, amfUeId: Option<int>, partial: bool,
    messages: seq<Entry>, procedures: seq<Procedure>, ciphAlgo: Option<int>)

  // ----- Specification: group by UE, then look at each UE alone -----

  ghost function Select(ms: seq<NgapMsg>, k: UeKey): seq<NgapMsg> {
    if ms == [] then []
    else
      var p, m := ms[..|ms| - 1], ms[|ms| - 1];
      if IsUe(m) && KeyOf(m) == k then Select(p, k) + [m] else Select(p, k)
  }

  ghost function Unassociated(ms: seq<NgapMsg>): seq<NgapMsg> {
    if ms == [] then []
    else
      var p, m := ms[..|ms| - 1], ms[|ms| - 1];
      if IsUe(m) then Unassociated(p) else Unassociated(p) + [m]
  }

  /** The UEs in the order of their first message. */
  ghost function Keys(ms: seq<NgapMsg>): (ks: seq<UeKey>)
    ensures Distinct(ks)
    ensures forall k :: k in ks ==> Select(ms, k) != []
    ensures forall k :: k !in ks ==> Select(ms, k) == []
  {
    if ms == [] then []
    else
      var p, m := ms[..|ms| - 1], ms[|ms| - 1];
      var ks := Keys(p);
      if !IsUe(m) || KeyOf(m) in ks then ks else ks + [KeyOf(m)]
  }

  ghost function FirstAmf(ms: seq<NgapMsg>): Option<int> {
    if ms == [] then None
    else
      var p, m := ms[..|ms| - 1], ms[|ms| - 1];
      if FirstAmf(p).Some? then FirstAmf(p) else m.amfUeId
  }

  /** The ciphering algorithm selected by the flow's first message that selects one. */
  ghost function Cipher(tr: seq<Entry>): Option<int> {
    if tr == [] then None
    else
      var p, e := tr[..|tr| - 1], tr[|tr| - 1];
      if Cipher(p).Some? then Cipher(p) else if e.1.Some? then e.1.value.ciphAlgo else None
  }

  ghost predicate CarriesNas(m: NgapMsg) {
    m.nasPdu.Some? && m.nasPdu.value != []
  }

  ghost function NasUnder(decode: Decoder, m: NgapMsg, cipher: Option<int>): Option<NasMsg> {
    if CarriesNas(m) then Some(decode(m.nasPdu.value, cipher)) else None
  }

  /** Each message with its NAS, decoded under the cipher selected strictly before it. */
  ghost function Decoded(decode: Decoder, ms: seq<NgapMsg>): (tr: seq<Entry>)
    ensures |tr| == |ms|
  {
    if ms == [] then []
    else
      var p, m := ms[..|ms| - 1], ms[|ms| - 1];
      Decoded(decode, p) + [(m, NasUnder(decode, m, Cipher(Decoded(decode, p))))]
  }

  ghost function FlowOf(decode: Decoder, id: nat, ms: seq<NgapMsg>): FlowView
    requires ms != []
  {
    var tr := Decoded(decode, ms);
    FlowView(id, SortedAssoc(ms[0].assoc), ms[0].ranUeId, FirstAmf(ms), ms[0].name != InitialUEMessage,
             tr, Procedures(tr), Cipher(tr))
  }

  ghost function FlowsOf(decode: Decoder, ms: seq<NgapMsg>): (fs: seq<FlowView>)
    ensures |fs| == |Keys(ms)|
    ensures forall i :: 0 <= i < |fs| ==>
              Keys(ms)[i] in Keys(ms) && fs[i] == FlowOf(decode, i + 1, Select(ms, Keys(ms)[i]))
  {
    hide Keys, Select, FlowOf;
    assert forall i :: 0 <= i < |Keys(ms)| ==> Keys(ms)[i] in Keys(ms);
    seq(|Keys(ms)|, i requires 0 <= i < |Keys(ms)| => FlowOf(decode, i + 1, Select(ms, Keys(ms)[i])))
  }

  // ----- Consequences of the specification -----

  lemma {:induction false} SelectConcat(a: seq<NgapMsg>, b: seq<NgapMsg>, k: UeKey)
    ensures Select(a + b, k) == Select(a, k) + Select(b, k)
    ensures Unassociated(a + b) == Unassociated(a) + Unassociated(b)
  {
    if b == [] {
      assert a + b == a;
    } else {
      ConcatSnoc(a, b);
      SelectConcat(a, b[..|b| - 1], k);
      assert (a + b)[..|a + b| - 1] == a + b[..|b| - 1];
    }
  }

  /** Every message lands exactly once: in its place in its own UE's messages and nowhere
      else, or in its place among the unassociated. */
  lemma EachMessageLandsOnce(ms: seq<NgapMsg>, i: nat, k: UeKey)
    requires i < |ms|
    ensures Select(ms, k) == Select(ms[..i], k) + (if IsUe(ms[i]) && KeyOf(ms[i]) == k then [ms[i]] else [])
                             + Select(ms[i + 1..], k)
    ensures Unassociated(ms) == Unassociated(ms[..i]) + (if IsUe(ms[i]) then [] else [ms[i]])
                                + Unassociated(ms[i + 1..])
    ensures IsUe(ms[i]) ==> KeyOf(ms[i]) in Keys(ms)
  {
    var m := ms[i];
    assert ms == ms[..i] + [m] + ms[i + 1..];
    SelectConcat(ms[..i], [m], k);
    SelectConcat(ms[..i] + [m], ms[i + 1..], k);
    SelectConcat(ms[..i], [m], KeyOf(m));
    SelectConcat(ms[..i] + [m], ms[i + 1..], KeyOf(m));
    assert [m][..0] == [];
    assert IsUe(m) ==> m in Select(ms, KeyOf(m));
  }

  // ----- The grouping, stated on the capture -----

  /** Same RAN UE id, on the same association seen from the same or from the other end. */
  ghost predicate SameUe(a: NgapMsg, b: NgapMsg) {
    a.ranUeId == b.ranUeId && (a.assoc == b.assoc || a.assoc == (b.assoc.1, b.assoc.0))
  }

  /** places says where each flow's messages come from, left where the others do. The flows are numbered in the order
      of their first messages. */
  ghost predicate Grouped(ms: seq<NgapMsg>, fs: seq<FlowView>, rest: seq<NgapMsg>,
                          places: seq<seq<nat>>, left: seq<nat>)
  {
    && |places| == |fs| && IsLeft(ms, rest, left) && Covered(ms, places, left) && Apart(ms, places)
    && (forall f :: 0 <= f < |fs| ==> fs[f].flowId == f + 1 && HasPlaces(ms, fs[f].messages, places[f]))
    && FirstsInOrder(places)
  }

  ghost predicate FirstsInOrder(places: seq<seq<nat>>) {
    forall f: nat, g: nat :: f < g < |places| ==> FirstBefore(places[f], places[g])
  }

  ghost predicate FirstBefore(at: seq<nat>, later: seq<nat>) {
    at != [] && later != [] && at[0] < later[0]
  }

  /** rest holds, in order, exactly the messages without any UE id. */
  ghost predicate IsLeft(ms: seq<NgapMsg>, rest: seq<NgapMsg>, left: seq<nat>) {
    && IsAt(ms, left, rest)
    && forall p: nat :: p < |ms| ==> (p in left <==> ms[p].ranUeId == None && ms[p].amfUeId == None)
  }

  /** The listed positions, in order, hold these messages. */
  ghost predicate IsAt(ms: seq<NgapMsg>, at: seq<nat>, picked: seq<NgapMsg>) {
    && Increasing(at) && |at| == |picked|
    && forall j :: 0 <= j < |at| ==> at[j] < |ms| && picked[j] == ms[at[j]]
  }

  /** Every other message is in a flow. */
  ghost predicate Covered(ms: seq<NgapMsg>, places: seq<seq<nat>>, left: seq<nat>) {
    forall p: nat :: p < |ms| ==> (p !in left <==> exists f :: 0 <= f < |places| && p in places[f])
  }

  /** Two messages are in the same flow exactly when they are of the same UE. */
  ghost predicate Apart(ms: seq<NgapMsg>, places: seq<seq<nat>>) {
    forall f: nat, g: nat :: f < |places| && g < |places| ==> ApartAt(ms, places[f], places[g], f == g)
  }

  ghost predicate ApartAt(ms: seq<NgapMsg>, at: seq<nat>, other: seq<nat>, same: bool) {
    forall p, q :: p in at && q in other ==> p < |ms| && q < |ms| && (same <==> SameUe(ms[p], ms[q]))
  }

  ghost predicate HasPlaces(ms: seq<NgapMsg>, tr: seq<Entry>, at: seq<nat>) {
    && at != [] && Increasing(at) && |at| == |tr|
    && forall j :: 0 <= j < |at| ==> at[j] in at && at[j] < |ms| && tr[j].0 == ms[at[j]]
  }

  /** The flow's own fields follow from its messages: the first one's association, sorted, RAN id and name, the first
      AMF id that any carries, and the NAS of each that carries some, decoded under the cipher selected before it. */
  ghost predicate Described(decode: Decoder, f: FlowView) {
    && f.messages != []
    && (var first := f.messages[0].0;
        && (f.assoc == first.assoc || f.assoc == (first.assoc.1, first.assoc.0)) && f.assoc.0 <= f.assoc.1
        && f.ranUeId == first.ranUeId && (f.partial <==> first.name != InitialUEMessage))
    && (f.amfUeId.None? ==> forall e :: e in f.messages ==> e.0.amfUeId == None)
    && (f.amfUeId.Some? ==> exists j :: 0 <= j < |f.messages| && IsFirstAmf(f.messages, j, f.amfUeId.value))
    && f.ciphAlgo == Cipher(f.messages) && f.procedures == Procedures(f.messages)
    && forall j :: 0 <= j < |f.messages| ==>
         var e := f.messages[j];
         e.1 == if e.0.nasPdu == None || e.0.nasPdu == Some([]) then None
                else Some(decode(e.0.nasPdu.value, Cipher(f.messages[..j])))
  }

  ghost predicate IsFirstAmf(tr: seq<Entry>, j: nat, id: int) {
    j < |tr| && tr[j].0.amfUeId == Some(id) && forall i :: 0 <= i < j ==> tr[i].0.amfUeId == None
  }

  /** Where the messages of key k stand. */
  ghost function Places(ms: seq<NgapMsg>, k: UeKey): seq<nat> {
    if ms == [] then []
    else
      var p, m := ms[..|ms| - 1], ms[|ms| - 1];
      if IsUe(m) && KeyOf(m) == k then Places(p, k) + [|p|] else Places(p, k)
  }

  ghost function PlacesLeft(ms: seq<NgapMsg>): seq<nat> {
    if ms == [] then []
    else
      var p, m := ms[..|ms| - 1], ms[|ms| - 1];
      if IsUe(m) then PlacesLeft(p) else PlacesLeft(p) + [|p|]
  }

  lemma AtSnoc(p: seq<NgapMsg>, m: NgapMsg, at: seq<nat>, picked: seq<NgapMsg>)
    requires IsAt(p, at, picked)
    ensures IsAt(p + [m], at, picked) && IsAt(p + [m], at + [|p|], picked + [m])
    ensures forall i: nat :: i in at + [|p|] <==> i in at || i == |p|
    ensures |p| !in at
  {
    assert forall i :: 0 <= i < |p| ==> (p + [m])[i] == p[i];
  }

  ghost predicate IsPicked(ms: seq<NgapMsg>, at: seq<nat>, k: UeKey) {
    forall i: nat :: i in at <==> i < |ms| && IsUe(ms[i]) && KeyOf(ms[i]) == k
  }

  lemma {:induction false} PlacesMeaning(ms: seq<NgapMsg>, k: UeKey)
    ensures IsAt(ms, Places(ms, k), Select(ms, k)) && IsPicked(ms, Places(ms, k), k)
  {
    hide IsAt, IsUe, KeyOf;
    if ms == [] {
      NothingAt(ms);
    } else {
      var p, m := ms[..|ms| - 1], ms[|ms| - 1];
      PlacesMeaning(p, k);
      AtSnoc(p, m, Places(p, k), Select(p, k));
      assert ms == p + [m];
      PickedSnoc(p, m, Places(p, k), k);
    }
  }

  lemma PickedSnoc(p: seq<NgapMsg>, m: NgapMsg, at: seq<nat>, k: UeKey)
    requires IsPicked(p, at, k)
    ensures IsPicked(p + [m], if IsUe(m) && KeyOf(m) == k then at + [|p|] else at, k)
  {
    hide IsUe, KeyOf;
    var ms := p + [m];
    assert ms[|p|] == m && forall i :: 0 <= i < |p| ==> ms[i] == p[i];
    assert forall i: nat :: i in at + [|p|] <==> i in at || i == |p|;
  }

  lemma NothingAt(ms: seq<NgapMsg>)
    ensures IsAt(ms, [], [])
  {
  }

  lemma {:induction false} LeftMeaning(ms: seq<NgapMsg>)
    ensures IsLeft(ms, Unassociated(ms), PlacesLeft(ms))
  {
    hide IsAt, IsLeft;
    if ms == [] {
      NothingLeft();
    } else {
      var p := ms[..|ms| - 1];
      LeftMeaning(p);
      LeftSnoc(p, ms[|p|], Unassociated(p), PlacesLeft(p));
      assert ms == p + [ms[|p|]];
    }
  }

  lemma NothingLeft()
    ensures IsLeft([], [], [])
  {
  }

  lemma LeftSnoc(p: seq<NgapMsg>, m: NgapMsg, rest: seq<NgapMsg>, left: seq<nat>)
    requires IsLeft(p, rest, left)
    ensures if IsUe(m) then IsLeft(p + [m], rest, left) else IsLeft(p + [m], rest + [m], left + [|p|])
  {
    AtSnoc(p, m, left, rest);
    hide IsAt;
    var ms := p + [m];
    assert ms[|p|] == m && forall i :: 0 <= i < |p| ==> ms[i] == p[i];
  }

  lemma SameKey(a: NgapMsg, b: NgapMsg)
    ensures KeyOf(a) == KeyOf(b) <==> SameUe(a, b)
  {
    assert KeyOf(a).0 == KeyOf(b).0 ==>
             a.assoc.0 in KeyOf(b).0 && a.assoc.1 in KeyOf(b).0 && b.assoc.0 in KeyOf(a).0 && b.assoc.1 in KeyOf(a).0;
  }

  lemma {:induction false} KeysInOrder(ms: seq<NgapMsg>, i: nat, j: nat)
    requires i < j < |Keys(ms)|
    ensures Keys(ms)[i] in Keys(ms) && Keys(ms)[j] in Keys(ms)
    ensures FirstBefore(Places(ms, Keys(ms)[i]), Places(ms, Keys(ms)[j]))
  {
    PlacesMeaning(ms, Keys(ms)[i]);
    PlacesMeaning(ms, Keys(ms)[j]);
    var p, ks := ms[..|ms| - 1], Keys(ms);
    if j < |Keys(p)| {
      KeysInOrder(p, i, j);
    } else {
      PlacesMeaning(p, ks[i]);
      assert ks[i] in Keys(p) && Places(p, ks[i]) != [];
      assert Places(p, ks[i])[0] in Places(p, ks[i]);
    }
  }

  ghost function AllPlaces(ms: seq<NgapMsg>): (places: seq<seq<nat>>)
    ensures |places| == |Keys(ms)| && forall i :: 0 <= i < |places| ==> places[i] == Places(ms, Keys(ms)[i])
  {
    seq(|Keys(ms)|, i requires 0 <= i < |Keys(ms)| => Places(ms, Keys(ms)[i]))
  }

  lemma {:induction false} DecodedIs(decode: Decoder, ms: seq<NgapMsg>)
    ensures forall j :: 0 <= j < |ms| ==> Decoded(decode, ms)[j].0 == ms[j]
  {
    hide Cipher, NasUnder;
    if ms != [] {
      DecodedIs(decode, ms[..|ms| - 1]);
    }
  }

  /** What FlowsOf means. */
  lemma FlowsAreGrouped(decode: Decoder, ms: seq<NgapMsg>)
    ensures Grouped(ms, FlowsOf(decode, ms), Unassociated(ms), AllPlaces(ms), PlacesLeft(ms))
    ensures forall f :: f in FlowsOf(decode, ms) ==> Described(decode, f)
  {
    var fs, places := FlowsOf(decode, ms), AllPlaces(ms);
    hide Apart, Places, PlacesLeft, Unassociated, Select, Keys, HasPlaces, Described, IsLeft, Covered, FlowOf,
         Decoded, FirstsInOrder;
    LeftMeaning(ms);
    PlacesApart(ms);
    PlacesCover(ms);
    forall f | 0 <= f < |fs|
      ensures fs[f].flowId == f + 1 && HasPlaces(ms, fs[f].messages, places[f]) && Described(decode, fs[f])
    {
      assert Keys(ms)[f] in Keys(ms);
      FlowHasPlaces(decode, f + 1, ms, Keys(ms)[f]);
      FlowIsDescribed(decode, f + 1, Select(ms, Keys(ms)[f]));
    }
  }

  lemma FlowHasPlaces(decode: Decoder, id: nat, ms: seq<NgapMsg>, k: UeKey)
    requires Select(ms, k) != []
    ensures FlowOf(decode, id, Select(ms, k)).flowId == id
    ensures HasPlaces(ms, FlowOf(decode, id, Select(ms, k)).messages, Places(ms, k))
  {
    DecodedIs(decode, Select(ms, k));
    PlacesMeaning(ms, k);
    hide Decoded, Select, Cipher, Procedures, Places;
  }

  lemma PlacesCover(ms: seq<NgapMsg>)
    ensures Covered(ms, AllPlaces(ms), PlacesLeft(ms))
  {
    LeftMeaning(ms);
    hide Places, PlacesLeft, Unassociated, Select, Keys, KeyOf, IsAt;
    forall p: nat | p < |ms|
      ensures p !in PlacesLeft(ms) <==> exists f :: 0 <= f < |AllPlaces(ms)| && p in AllPlaces(ms)[f]
    {
      if IsUe(ms[p]) {
        PlaceExists(ms, p);
      }
      if f :| 0 <= f < |AllPlaces(ms)| && p in AllPlaces(ms)[f] {
        PlacesMeaning(ms, Keys(ms)[f]);
      }
    }
  }

  lemma PlaceExists(ms: seq<NgapMsg>, p: nat)
    requires p < |ms| && IsUe(ms[p])
    ensures exists f :: 0 <= f < |Keys(ms)| && p in AllPlaces(ms)[f]
  {
    EachMessageLandsOnce(ms, p, KeyOf(ms[p]));
    var f :| 0 <= f < |Keys(ms)| && Keys(ms)[f] == KeyOf(ms[p]);
    PlacesMeaning(ms, Keys(ms)[f]);
    hide Keys, Places, Select, KeyOf;
    assert p in AllPlaces(ms)[f];
  }

  lemma PlacesApart(ms: seq<NgapMsg>)
    ensures Apart(ms, AllPlaces(ms)) && FirstsInOrder(AllPlaces(ms))
  {
    hide Keys, Places, ApartAt, FirstBefore;
    var places := AllPlaces(ms);
    forall f: nat, g: nat | f < |places| && g < |places|
      ensures ApartAt(ms, places[f], places[g], f == g)
    {
      TwoPlaces(ms, f, g);
    }
    forall f: nat, g: nat | f < g < |places|
      ensures FirstBefore(places[f], places[g])
    {
      KeysInOrder(ms, f, g);
    }
  }

  lemma TwoPlaces(ms: seq<NgapMsg>, f: nat, g: nat)
    requires f < |Keys(ms)| && g < |Keys(ms)|
    ensures ApartAt(ms, Places(ms, Keys(ms)[f]), Places(ms, Keys(ms)[g]), f == g)
  {
    hide Keys, Places, KeyOf, SameUe, IsUe;
    PlacesMeaning(ms, Keys(ms)[f]);
    PlacesMeaning(ms, Keys(ms)[g]);
    forall p, q | p in Places(ms, Keys(ms)[f]) && q in Places(ms, Keys(ms)[g])
      ensures p < |ms| && q < |ms| && (f == g <==> SameUe(ms[p], ms[q]))
    {
      SameKey(ms[p], ms[q]);
    }
  }

  lemma FlowIsDescribed(decode: Decoder, id: nat, ms: seq<NgapMsg>)
    requires ms != []
    ensures Described(decode, FlowOf(decode, id, ms))
  {
    hide Decoded, Cipher, Procedures, FirstAmf, NasUnder;
    var f := FlowOf(decode, id, ms);
    DecodedIs(decode, ms);
    FirstAmfMeaning(ms);
    forall j | 0 <= j < |ms|
      ensures var e := f.messages[j];
              e.1 == if e.0.nasPdu == None || e.0.nasPdu == Some([]) then None
                     else Some(decode(e.0.nasPdu.value, Cipher(f.messages[..j])))
    {
      DecodedUnderEarlierCipher(decode, ms, j);
      NasMeaning(decode, ms[j], Cipher(f.messages[..j]));
    }
    if f.amfUeId.Some? {
      var j :| 0 <= j < |ms| && ms[j].amfUeId == f.amfUeId && forall i :: 0 <= i < j ==> ms[i].amfUeId == None;
      assert IsFirstAmf(f.messages, j, f.amfUeId.value);
    } else {
      assert forall e :: e in f.messages ==> e.0 in ms;
    }
  }

  lemma NasMeaning(decode: Decoder, m: NgapMsg, cipher: Option<int>)
    ensures NasUnder(decode, m, cipher) ==
            if m.nasPdu == None || m.nasPdu == Some([]) then None else Some(decode(m.nasPdu.value, cipher))
  {
  }

  lemma {:induction false} FirstAmfMeaning(ms: seq<NgapMsg>)
    ensures FirstAmf(ms).None? ==> forall m :: m in ms ==> m.amfUeId == None
    ensures FirstAmf(ms).Some? ==>
              exists j :: 0 <= j < |ms| && ms[j].amfUeId == FirstAmf(ms)
                          && forall i :: 0 <= i < j ==> ms[i].amfUeId == None
  {
    if ms != [] {
      var p := ms[..|ms| - 1];
      FirstAmfMeaning(p);
      if FirstAmf(p).Some? {
        var j :| 0 <= j < |p| && p[j].amfUeId == FirstAmf(p) && forall i :: 0 <= i < j ==> p[i].amfUeId == None;
        assert ms[j] == p[j] && forall i :: 0 <= i < j ==> ms[i] == p[i];
      } else {
        forall i | 0 <= i < |p|
          ensures ms[i].amfUeId == None
        {
          assert ms[i] == p[i] && p[i] in p;
        }
      }
    }
  }

  ghost function TotalSelected(ms: seq<NgapMsg>, ks: seq<UeKey>): nat {
    if ks == [] then 0 else |Select(ms, ks[0])| + TotalSelected(ms, ks[1..])
  }

  /** Nothing is lost: flows and unassociated messages together are as many as the input. */
  lemma {:induction false} MessagesArePartitioned(ms: seq<NgapMsg>)
    ensures |ms| == |Unassociated(ms)| + TotalSelected(ms, Keys(ms))
  {
    hide IsUe, KeyOf, Select;
    if ms != [] {
      var p, m := ms[..|ms| - 1], ms[|ms| - 1];
      MessagesArePartitioned(p);
      TotalAppend(p, m, Keys(ms));
      assert ms == p + [m];
      if IsUe(m) && KeyOf(m) !in Keys(p) {
        TotalOfNewKey(p, Keys(p), KeyOf(m));
      }
    }
  }

  lemma {:induction false} TotalAppend(p: seq<NgapMsg>, m: NgapMsg, ks: seq<UeKey>)
    requires Distinct(ks)
    ensures TotalSelected(p + [m], ks) == TotalSelected(p, ks) + if IsUe(m) && KeyOf(m) in ks then 1 else 0
  {
    assert (p + [m])[..|p|] == p;
    if ks != [] {
      TotalAppend(p, m, ks[1..]);
    }
  }

  lemma {:induction false} TotalOfNewKey(p: seq<NgapMsg>, ks: seq<UeKey>, k: UeKey)
    requires Select(p, k) == []
    ensures TotalSelected(p, ks + [k]) == TotalSelected(p, ks)
  {
    if ks == [] {
      assert [k][1..] == [];
    } else {
      TotalOfNewKey(p, ks[1..], k);
      assert (ks + [k])[1..] == ks[1..] + [k];
    }
  }

  /** A message's NAS is decoded under the first cipher selected strictly earlier in its flow. */
  lemma {:induction false} DecodedUnderEarlierCipher(decode: Decoder, ms: seq<NgapMsg>, j: nat)
    requires j < |ms|
    ensures Decoded(decode, ms)[j] == (ms[j], NasUnder(decode, ms[j], Cipher(Decoded(decode, ms)[..j])))
    ensures Decoded(decode, ms)[..j] == Decoded(decode, ms[..j])
  {
    var p := ms[..|ms| - 1];
    if j < |p| {
      DecodedUnderEarlierCipher(decode, p, j);
      assert ms[..j] == p[..j];
      assert Decoded(decode, ms)[..j] == Decoded(decode, p)[..j];
    } else {
      assert Decoded(decode, ms)[..j] == Decoded(decode, p);
    }
  }

  ghost predicate Selects(e: Entry, c: int) {
    e.1.Some? && e.1.value.ciphAlgo == Some(c)
  }

  /** Cipher finds the earliest selection. */
  lemma {:induction false} CipherIsFirst(tr: seq<Entry>, c: int)
    ensures Cipher(tr) == Some(c) <==>
            exists j :: 0 <= j < |tr| && Selects(tr[j], c) && forall i, d :: 0 <= i < j ==> !Selects(tr[i], d)
    ensures Cipher(tr).None? ==> forall i :: 0 <= i < |tr| ==> !Selects(tr[i], c)
  {
    if tr != [] {
      var p, e := tr[..|tr| - 1], tr[|tr| - 1];
      CipherIsFirst(p, c);
      assert forall i :: 0 <= i < |p| ==> tr[i] == p[i];
      if Cipher(p).Some? {
        var d := Cipher(p).value;
        CipherIsFirst(p, d);
        var i :| 0 <= i < |p| && Selects(p[i], d) && forall i', d' :: 0 <= i' < i ==> !Selects(p[i'], d');
        if j :| 0 <= j < |tr| && Selects(tr[j], c) && forall i', d' :: 0 <= i' < j ==> !Selects(tr[i'], d') {
          assert Selects(tr[i], d) && j <= i;
          assert Selects(p[j], c);
        }
        if c == d {
          assert Selects(tr[i], c);
        }
      } else {
        forall i, d | 0 <= i < |p|
          ensures !Selects(tr[i], d)
        {
          CipherIsFirst(p, d);
        }
        assert tr[|p|] == e;
      }
    }
  }

  /** Interleaving does not matter: captures that give a UE the same messages give it the
      same flow. Only the flow numbers follow the order of the UEs' first messages. */
  lemma InterleavingKeepsFlows(decode: Decoder, ms: seq<NgapMsg>, other: seq<NgapMsg>)
    requires forall k :: Select(ms, k) == Select(other, k)
    ensures |FlowsOf(decode, ms)| == |FlowsOf(decode, other)|
    ensures forall f :: f in FlowsOf(decode, ms) ==>
              exists id :: f.(flowId := id) in FlowsOf(decode, other)
  {
    SameKeys(ms, other);
    hide *;
    forall f | f in FlowsOf(decode, ms)
      ensures exists id :: f.(flowId := id) in FlowsOf(decode, other)
    {
      var i :| 0 <= i < |FlowsOf(decode, ms)| && FlowsOf(decode, ms)[i] == f;
      SameFlow(decode, ms, other, i);
    }
  }

  lemma SameFlow(decode: Decoder, ms: seq<NgapMsg>, other: seq<NgapMsg>, i: nat)
    requires i < |Keys(ms)| && Keys(ms)[i] in Keys(other)
    requires Select(ms, Keys(ms)[i]) == Select(other, Keys(ms)[i])
    ensures exists id :: FlowsOf(decode, ms)[i].(flowId := id) in FlowsOf(decode, other)
  {
    var k := Keys(ms)[i];
    var j :| 0 <= j < |Keys(other)| && Keys(other)[j] == k;
    hide *;
    OnlyIdDiffers(decode, j + 1, i + 1, Select(ms, k));
    assert FlowsOf(decode, other)[j] == FlowOf(decode, j + 1, Select(other, k));
    assert FlowsOf(decode, ms)[i].(flowId := j + 1) in FlowsOf(decode, other);
  }

  lemma OnlyIdDiffers(decode: Decoder, id: nat, other: nat, ms: seq<NgapMsg>)
    requires ms != []
    ensures FlowOf(decode, id, ms) == FlowOf(decode, other, ms).(flowId := id)
  {
  }

  lemma SameKeys(ms: seq<NgapMsg>, other: seq<NgapMsg>)
    requires forall k :: Select(ms, k) == Select(other, k)
    ensures forall k :: k in Keys(ms) <==> k in Keys(other)
    ensures |Keys(ms)| == |Keys(other)|
  {
    assert forall k :: k in Keys(ms) <==> k in Keys(other);
    assert (set k | k in Keys(ms)) == (set k | k in Keys(other));
    DistinctCount(Keys(ms));
    DistinctCount(Keys(other));
    hide *;
  }

  lemma {:induction false} DistinctCount<T>(s: seq<T>)
    requires Distinct(s)
    ensures |set x | x in s| == |s|
  {
    if s == [] {
      assert (set x | x in s) == {};
    } else {
      var p, last := s[..|s| - 1], s[|s| - 1];
      DistinctCount(p);
      assert last !in p;
      assert s == p + [last];
      assert (set x | x in s) == (set x | x in p) + {last};
    }
  }
}
