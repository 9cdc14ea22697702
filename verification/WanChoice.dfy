/** The WAN of a packet: its profile's, or else its flow's (select_wan_idx_for_packet in src/core/forwarder.c). */
module WanChoice {
  import opened Bytes
  import opened Flows = FlowTable
  import opened Policy
  import opened WanScheduler

  /** Every flow, and the next new one, is on a WAN that exists. */
  ghost predicate InRange(ft: FlowTable)
    requires ft.windows.Valid()
    reads ft, ft.table
  {
    && (forall k :: k in ft.table.entries ==> ft.windows.Starts(ft.table.entries[k].wan))
    && ft.windows.Starts(NextWan(ft.nextWan, ft.windows.count))
  }

  /**
   * select_wan_idx_for_packet. The flow table counts the packet exactly when the profile gives no
   * WAN; and the WAN given exists, if the flow table's WANs do.
   */
  method SelectWanForPacket(ft: FlowTable, cfg: Config, local: int, n: u64, src: u32, dst: u32, len: u32, now: u64)
    returns (wan: int, next: u64)
    requires ft.Valid()
    requires forall k :: 0 <= k < |cfg.profiles| ==> |cfg.profiles[k].wans| <= MaxProfileInterfaces
    modifies ft`nextWan, ft.table.repr
    ensures ft.Valid()
    ensures
      || (ProfileGives(cfg, local, n, Some(wan), next) && ft.table.entries == old(ft.table.entries)
          && ft.nextWan == old(ft.nextWan))
      || (ProfileGives(cfg, local, n, None, next)
          && ft.table.entries == Apply(ft.windows, old(ft.table.entries),
                                       Packet(src, dst, len, now, NextWan(old(ft.nextWan), ft.windows.count)))
          && ft.nextWan == (if Flows.Normal(src, dst) in old(ft.table.entries) then old(ft.nextWan)
                            else Advanced(old(ft.nextWan), ft.windows.count))
          && wan == ft.table.entries[Flows.Normal(src, dst)].wan)
    ensures old(InRange(ft)) && ft.windows.count == |cfg.wans| > 0 ==> 0 <= wan < |cfg.wans|
  {
    hide Chosen;
    hide Flows.Normal;
    hide NextWan;
    hide Advances;
    var choice;
    choice, next := SelectByProfile(cfg, local, n);
    if choice.Some? {
      wan := choice.value;
      ghost var k := ProfileOfLocal(cfg, local).value;
      ChosenIsUsable(cfg.profiles[k].wans, |cfg.wans|, n, wan, next);
    } else {
      wan := ft.GetWan(src, dst, len, now);
    }
  }
}
