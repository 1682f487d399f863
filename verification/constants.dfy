/** The enumerations of constants.py: IP protocol numbers and ICMP message
    types. A builder receives one of these values, so the type-checks the
    constructors perform at run time are carried by the Dafny types. */
module Constants {

  /** The first ten protocol numbers of the IPv4 protocol field. */
  datatype IPProtocol =
    | HopOpt | Icmp | Igmp | Ggp | IpInIp | St | Tcp | Cbt | Egp | Igp
  {
    /** The number written into the header's protocol byte. */
    function Value(): (r: nat)
      ensures r <= 0xFF
    {
      match this
      case HopOpt => 0
      case Icmp => 1
      case Igmp => 2
      case Ggp => 3
      case IpInIp => 4
      case St => 5
      case Tcp => 6
      case Cbt => 7
      case Egp => 8
      case Igp => 9
    }
  }

  /** ICMP message types. */
  datatype ICMPType =
    | EchoReply | DestUnreachable | Redirect | EchoRequest
    | RouterAdvertisement | RouterSolicitation | TimeExceeded
    | BadIpHeader | Timestamp | TimestampReply
  {
    /** The number written into the message's type byte. */
    function Value(): (r: nat)
      ensures r <= 0xFF
    {
      match this
      case EchoReply => 0
      case DestUnreachable => 3
      case Redirect => 5
      case EchoRequest => 8
      case RouterAdvertisement => 9
      case RouterSolicitation => 10
      case TimeExceeded => 11
      case BadIpHeader => 12
      case Timestamp => 13
      case TimestampReply => 14
    }
  }
}
