/** Decoded N2 messages: what ngap.decode and nas.decode yield, reduced to the
    fields the flow model, the joins and the KPIs read. The message names that
    drive no branch are all OtherNgap or OtherNas. */
module Messages {
  import opened Common

  type Tunnel = (int, string)

  datatype NgapName =
    | InitialUEMessage
    | InitialContextSetupRequest
    | InitialContextSetupFailure
    | PduSetupRequest
    | PduSetupResponse
    | PduSetupFailure
    | UEContextReleaseRequest
    | UEContextReleaseCommand
    | UEContextReleaseComplete
    | OtherNgap(text: Option<string>)

  datatype NgapMsg = NgapMsg(
    ts: real, assoc: (int, int), name: NgapName, ranUeId: Option<int>, amfUeId: Option<int>,
    nasPdu: Option<seq<int>>, fTeids: seq<Tunnel>,
    reqSessionTunnels: map<int, seq<Tunnel>>, rspSessionCounts: map<int, nat>)

  datatype NasName =
    | RegistrationRequest
    | RegistrationAccept
    | RegistrationReject
    | EstabRequest
    | EstabAccept
    | EstabReject
    | OtherNas(text: string)

  datatype NasMsg = NasMsg(name: Option<NasName>, inner: Option<NasName>, ciphAlgo: Option<int>,
                           supi: Option<string>, unparsed: Option<string>)

  /** One flow message: the NGAP carrier and the NAS it carries, if any. */
  type Entry = (NgapMsg, Option<NasMsg>)

  /** NAS decode is a function of the octets and the ciphering algorithm. */
  type Decoder = (seq<int>, Option<int>) -> NasMsg
}
