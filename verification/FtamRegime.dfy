/** The FTAM file regime (ISO 8571-4): the guards and state changes of every request and
    response primitive (ftam/ftambulk.c, ftambulk1.c, ftambulk2.c, ftamaccess1.c,
    ftamaccess2.c, ftamgroup1.c, ftamgroup2.c) and of the indication side
    (doPSdata in ftam/ftamprovider.c), for one end of an association.  Groups are ideal here:
    one flag says whether a bulk-begin was granted; FtamAssociation has the real ones. */
module FtamRegime {
  import opened Options

  /** fsb_state (h/fpkt.h). */
  datatype Phase =
    | Initialized | Management | BulkBegin | BulkEnd | DataIdle | Locate | Erase
    | DataRead | DataWrite | DataFin1 | DataFin2 | DataCancel

  datatype Group = Manage | Begin | Finish

  /** The PDUs that move the regime; a group of PDUs counts as one, `granted` says that
      select-or-create and open both succeeded. */
  datatype Pdu =
    | GroupReq(kind: Group) | GroupRsp(kind: Group, granted: bool)
    | LocateReq | LocateRsp | EraseReq | EraseRsp
    | ReadReq | WriteReq | Data | DataEnd
    | TransferEndReq | TransferEndRsp | CancelReq | CancelRsp

  /** The functional units the transfer primitives ask for. */
  datatype Units = Units(read: bool, write: bool, access: bool)

  /** struct ftamblk: role, state, FSB_CANCEL and units. */
  datatype End = End(init: bool, state: Phase, cancel: bool, units: Units)

  /** Sending m: None when the primitive refuses with "wrong state" and the like.  An end
      that has issued F-CANCEL.REQUEST sits in FWaitRequestAux until FSB_CANCEL is cleared,
      so it issues nothing meanwhile. */
  function Send(e: End, m: Pdu): Option<End> {
    if e.cancel then None
    else match m
      case GroupReq(k) =>
        if e.init && e.state == (if k.Finish? then DataIdle else Initialized)
        then Some(e.(state := match k case Manage => Management case Begin => BulkBegin case Finish => BulkEnd))
        else None
      case GroupRsp(k, granted) =>
        if !e.init && e.state == (match k case Manage => Management case Begin => BulkBegin case Finish => BulkEnd)
        then Some(e.(state := if k.Begin? && granted then DataIdle else Initialized))
        else None
      case LocateReq => if e.init && e.state.DataIdle? && e.units.access then Some(e.(state := Locate)) else None
      case EraseReq => if e.init && e.state.DataIdle? && e.units.access then Some(e.(state := Erase)) else None
      case LocateRsp => if !e.init && e.state.Locate? then Some(e.(state := DataIdle)) else None
      case EraseRsp => if !e.init && e.state.Erase? then Some(e.(state := DataIdle)) else None
      case ReadReq => if e.init && e.state.DataIdle? && e.units.read then Some(e.(state := DataRead)) else None
      case WriteReq => if e.init && e.state.DataIdle? && e.units.write then Some(e.(state := DataWrite)) else None
      case Data => if SendsData(e) then Some(e) else None
      case DataEnd => if SendsData(e) then Some(e.(state := DataFin1)) else None
      case TransferEndReq => if e.init && e.state.DataFin1? then Some(e.(state := DataFin2)) else None
      case TransferEndRsp => if !e.init && e.state.DataFin2? then Some(e.(state := DataIdle)) else None
      case CancelReq =>
        if e.state.DataRead? || e.state.DataWrite? then Some(e.(state := DataCancel, cancel := true)) else None
      case CancelRsp => if e.state.DataCancel? then Some(e.(state := DataIdle)) else None
  }

  /** The responder sends data while reading, the initiator while writing. */
  predicate SendsData(e: End) {
    (e.state.DataRead? && !e.init) || (e.state.DataWrite? && e.init)
  }

  /** What an indication does: the PDU is taken, or it is a colliding F-CANCEL that is
      answered on the spot, or it is a protocol error that frees the block. */
  datatype Received = Taken(end: End) | Answered(end: End) | Lost

  function Receive(e: End, m: Pdu): Received {
    match m
    case GroupReq(k) =>
      if e.init || e.state != (if k.Finish? then DataIdle else Initialized) then Lost
      else Taken(e.(state := match k case Manage => Management case Begin => BulkBegin case Finish => BulkEnd))
    case GroupRsp(k, granted) =>
      if !e.init then Lost
      else if k.Finish? then (if e.state.BulkEnd? then Taken(e.(state := Initialized)) else Lost)
      else if e.state.Management? then Taken(e.(state := Initialized))
      else if e.state.BulkBegin? then Taken(e.(state := if granted then DataIdle else Initialized))
      else Lost
    case LocateReq =>
      if !e.init && e.state.DataIdle? && e.units.access then Taken(e.(state := Locate)) else Lost
    case EraseReq =>
      if !e.init && e.state.DataIdle? && e.units.access then Taken(e.(state := Erase)) else Lost
    case LocateRsp =>
      if e.init && e.state.Locate? && e.units.access then Taken(e.(state := DataIdle)) else Lost
    case EraseRsp =>
      if e.init && e.state.Erase? && e.units.access then Taken(e.(state := DataIdle)) else Lost
    case ReadReq => if !e.init && e.state.DataIdle? && e.units.read then Taken(e.(state := DataRead)) else Lost
    case WriteReq => if !e.init && e.state.DataIdle? && e.units.write then Taken(e.(state := DataWrite)) else Lost
    case Data => if e.state.DataCancel? || GetsData(e) then Taken(e) else Lost
    case DataEnd =>
      if e.state.DataCancel? then Taken(e) else if GetsData(e) then Taken(e.(state := DataFin1)) else Lost
    case TransferEndReq =>
      if e.init then Lost
      else if e.state.DataCancel? then Taken(e)
      else if e.state.DataFin1? then Taken(e.(state := DataFin2)) else Lost
    case TransferEndRsp => if e.init && e.state.DataFin2? then Taken(e.(state := DataIdle)) else Lost
    case CancelReq =>
      if e.state.DataCancel? then Answered(e.(state := DataIdle))
      else if e.state.DataRead? || e.state.DataWrite? || e.state.DataFin1? || e.state.DataFin2?
      then Taken(Cancelled(e)) else Lost
    case CancelRsp => if e.state.DataCancel? then Taken(Cancelled(e)) else Lost
  }

  predicate GetsData(e: End) {
    (e.state.DataRead? && e.init) || (e.state.DataWrite? && !e.init)
  }

  /** The end of the FTI_CANCEL case: a confirmation for the end that asked, an indication
      for the other. */
  function Cancelled(e: End): End {
    if e.cancel then e.(state := DataIdle, cancel := false) else e.(state := DataCancel)
  }
}
