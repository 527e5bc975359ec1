/** The connection table's receiver count, used as the payload count of the ring.

Ipc::write starts each payload's counter from recv_count() of the table.  Here the table's
result is put together with the counts that the ring is safe for.
*/
module Composition {
  import opened Words
  import Connection
  import Allocation
  import ProtocolLimits

  lemma HoldersFit(s: Allocation.State, mode: Connection.Mode)
    requires Connection.TableSize(|s.bits|) && Allocation.RangeOk(s, mode)
    ensures |Allocation.Holders(s, mode)| <= |s.bits|
  {
    var range := s.bits[Allocation.Lo(s, mode) - 1..Allocation.Hi(s, mode) - 1];
    Connection.CountNone(range);
    assert |range| <= |s.bits|;
  }

  /** On a broadcast segment whose table was filled by connects alone, the ring never gives
      a slot back under a receiver if and only if the receivers outnumber the connected
      senders by at most one. */
  lemma BroadcastSafeIff(max: nat, modes: seq<Connection.Mode>, s: Allocation.State)
    requires Connection.TableSize(max) && max < WORD - 1
    requires Allocation.Reachable(Connection.Broadcast, max, modes, s)
    ensures |s.bits| > 0
    ensures var senders := |Allocation.Holders(s, Connection.Sending)|;
      var receivers := |Allocation.Holders(s, Connection.Receiving)|;
      ProtocolLimits.NeverOvertakes(receivers, Connection.ReceiverCount(Connection.Broadcast, s.bits))
      <==> receivers <= senders + 1
  {
    Allocation.ReachableInv(Connection.Broadcast, max, modes, s);
    Allocation.BroadcastReceiverCount(max, modes, s);
    HoldersFit(s, Connection.Sending);
    HoldersFit(s, Connection.Receiving);
    var receivers := |Allocation.Holders(s, Connection.Receiving)|;
    assert receivers == 0 <==> Allocation.Holders(s, Connection.Receiving) == {};
    ProtocolLimits.SafeIffCountFits(receivers, Connection.ReceiverCount(Connection.Broadcast, s.bits));
  }

  /** On such a segment no slot is ever given back, in any run, if and only if there are at
      most as many receivers as senders; and so the ring both works and is safe only with
      exactly one receiver more than senders. */
  lemma BroadcastWorksIff(max: nat, modes: seq<Connection.Mode>, s: Allocation.State)
    requires Connection.TableSize(max) && max < WORD - 1
    requires Allocation.Reachable(Connection.Broadcast, max, modes, s)
    ensures |s.bits| > 0
    ensures var senders := |Allocation.Holders(s, Connection.Sending)|;
      var receivers := |Allocation.Holders(s, Connection.Receiving)|;
      var cnt := Connection.ReceiverCount(Connection.Broadcast, s.bits);
      && (ProtocolLimits.NeverReleases(receivers, cnt) <==> receivers <= senders)
      && (ProtocolLimits.NeverOvertakes(receivers, cnt) && !ProtocolLimits.NeverReleases(receivers, cnt)
          <==> receivers == senders + 1)
  {
    BroadcastSafeIff(max, modes, s);
    Allocation.ReachableInv(Connection.Broadcast, max, modes, s);
    Allocation.BroadcastReceiverCount(max, modes, s);
    HoldersFit(s, Connection.Sending);
    HoldersFit(s, Connection.Receiving);
    var receivers := |Allocation.Holders(s, Connection.Receiving)|;
    assert receivers == 0 <==> Allocation.Holders(s, Connection.Receiving) == {};
    ProtocolLimits.NeverReleasesIff(receivers, Connection.ReceiverCount(Connection.Broadcast, s.bits));
  }

  /** On a unicast segment it never does, and slots are given back as soon as there is a
      receiver. */
  lemma UnicastSafe(max: nat, modes: seq<Connection.Mode>, s: Allocation.State)
    requires Connection.TableSize(max) && max < WORD - 1
    requires Allocation.Reachable(Connection.Unicast, max, modes, s)
    ensures |s.bits| > 0
    ensures ProtocolLimits.NeverOvertakes(|Allocation.Holders(s, Connection.Receiving)|,
                                          Connection.ReceiverCount(Connection.Unicast, s.bits))
    ensures ProtocolLimits.NeverReleases(|Allocation.Holders(s, Connection.Receiving)|,
                                         Connection.ReceiverCount(Connection.Unicast, s.bits))
            <==> Allocation.Holders(s, Connection.Receiving) == {}
  {
    Allocation.ReachableInv(Connection.Unicast, max, modes, s);
    Allocation.UnicastReceiverCount(max, modes, s);
    HoldersFit(s, Connection.Receiving);
    var receivers := |Allocation.Holders(s, Connection.Receiving)|;
    assert receivers == 0 <==> Allocation.Holders(s, Connection.Receiving) == {};
    ProtocolLimits.SafeIffCountFits(receivers, Connection.ReceiverCount(Connection.Unicast, s.bits));
    ProtocolLimits.NeverReleasesIff(receivers, Connection.ReceiverCount(Connection.Unicast, s.bits));
  }
}
