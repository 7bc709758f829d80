/** Segments, flags and connection states of tcp/definitions.go. */
module Segments {
  import opened SeqNum

  /** Largest window a 16-bit field at scale 14 can express. */
  const MAX_WINDOW: int := 0xFFFF * 0x4000

  datatype Flags = Flags(fin: bool, syn: bool, rst: bool, psh: bool, ack: bool, urg: bool, ece: bool, cwr: bool,
                         ns: bool) {
    predicate HasCtl() {
      syn || fin || rst
    }
  }

  const NONE := Flags(false, false, false, false, false, false, false, false, false)
  const FIN := NONE.(fin := true)
  const SYN := NONE.(syn := true)
  const RST := NONE.(rst := true)
  const ACK := NONE.(ack := true)
  const PSH := NONE.(psh := true)
  const SYNACK := SYN.(ack := true)
  const FINACK := FIN.(ack := true)

  function Or(f: Flags, g: Flags): Flags {
    Flags(f.fin || g.fin, f.syn || g.syn, f.rst || g.rst, f.psh || g.psh, f.ack || g.ack,
          f.urg || g.urg, f.ece || g.ece, f.cwr || g.cwr, f.ns || g.ns)
  }

  function AndNot(f: Flags, g: Flags): Flags {
    Flags(f.fin && !g.fin, f.syn && !g.syn, f.rst && !g.rst, f.psh && !g.psh, f.ack && !g.ack,
          f.urg && !g.urg, f.ece && !g.ece, f.cwr && !g.cwr, f.ns && !g.ns)
  }

  function Bit(b: bool): int {
    if b then 1 else 0
  }

  datatype Segment = Segment(first: Value, ackno: Value, datalen: Size, wnd: Size, flags: Flags) {
    /** Sequence numbers the segment occupies, SYN and FIN included. */
    function Len(): Size {
      Wrap(datalen + Bit(flags.fin) + Bit(flags.syn))
    }

    /** Sequence number of its last octet. */
    function Last(): Value {
      if Len() == 0 then first else Wrap(Add(first, Len()) - 1)
    }

    predicate IsFirstSyn() {
      flags == SYN && ackno == 0 && datalen == 0 && wnd > 0
    }
  }

  datatype State =
    | Closed | Listen | SynRcvd | SynSent | Established
    | FinWait1 | FinWait2 | Closing | TimeWait | CloseWait | LastAck
  {
    predicate IsPreestablished() {
      SynRcvd? || SynSent? || Listen?
    }

    predicate IsClosed() {
      Closed? || TimeWait?
    }

    predicate TxDataOpen() {
      Established? || CloseWait?
    }

    /** Data already queued may still go out, also below a FIN the peer has not reached. */
    predicate TxQueuedDataOpen() {
      TxDataOpen() || FinWait1? || Closing? || LastAck?
    }

    predicate RxDataOpen() {
      Established? || FinWait1? || FinWait2?
    }
  }
}
