/**
 * The selection rule of DefaultOSUtil.get_primary_interface over the rows of
 * the kernel routing table, once read and split into columns: among the
 * default routes through a gateway, the interface of the one with the lowest
 * metric, the earliest such row on a tie, and '' when there is none.
 */
module RouteTable {
  import opened Bits
  import opened Wrappers

  /** RTF_GATEWAY of linux/route.h. */
  const RtfGateway: nat := 2

  /** The Destination column of a default route. */
  const DefaultDestination: string := "00000000"

  /** The columns of one routing-table row that the rule reads, Flags and Metric already converted by int(). */
  datatype RouteRow = RouteRow(iface: string, destination: string, flags: nat, metric: int)

  /** The row is a default route through a gateway: destination "00000000" and flags & RTF_GATEWAY set. */
  predicate IsDefaultGatewayRoute(r: RouteRow)
  {
    r.destination == DefaultDestination && BitAnd(r.flags, RtfGateway) == RtfGateway
  }

  /**
   * Row j is the primary route among the first n rows: a default gateway route
   * whose metric is below that of every such row before it and at most that
   * of every such row after it.
   */
  predicate IsPrimaryAmong(rows: seq<RouteRow>, n: nat, j: nat)
    requires n <= |rows|
  {
    && j < n
    && IsDefaultGatewayRoute(rows[j])
    && (forall i :: 0 <= i < j && IsDefaultGatewayRoute(rows[i]) ==> rows[j].metric < rows[i].metric)
    && (forall i :: j < i < n && IsDefaultGatewayRoute(rows[i]) ==> rows[j].metric <= rows[i].metric)
  }

  /** `flags & 2 == 2` tests bit 1 of the flags. */
  lemma GatewayBit(flags: nat)
    ensures BitAnd(flags, RtfGateway) == RtfGateway <==> (flags / 2) % 2 == 1
  {
    if flags > 0 {
      assert BitAnd(flags, 2) == 2 * BitAnd(flags / 2, 1);
      var h := flags / 2;
      if h > 0 {
        assert BitAnd(h, 1) == 2 * BitAnd(h / 2, 0) + (if h % 2 == 1 then 1 else 0);
      }
    }
  }

  /**
   * The loop of get_primary_interface: it keeps the interface and the metric of
   * the best row so far and replaces them only on a strictly lower metric.
   */
  method PrimaryInterface(rows: seq<RouteRow>) returns (primary: string)
    ensures (forall i :: 0 <= i < |rows| ==> !IsDefaultGatewayRoute(rows[i])) ==> primary == ""
    ensures (exists i :: 0 <= i < |rows| && IsDefaultGatewayRoute(rows[i])) ==>
              exists j: nat :: IsPrimaryAmong(rows, |rows|, j) && primary == rows[j].iface
  {
    var best: Option<string> := None;
    var bestMetric: int := 0;
    ghost var at: nat := 0;
    for k := 0 to |rows|
      invariant best.None? <==> forall i :: 0 <= i < k ==> !IsDefaultGatewayRoute(rows[i])
      invariant best.Some? ==> IsPrimaryAmong(rows, k, at) && best.value == rows[at].iface && bestMetric == rows[at].metric
    {
      var route := rows[k];
      if route.destination == DefaultDestination && BitAnd(route.flags, RtfGateway) == RtfGateway {
        var metric := route.metric;
        var iface := route.iface;
        if best.None? || metric < bestMetric {
          best := Some(iface);
          bestMetric := metric;
          at := k;
        }
      }
    }
    if best.None? {
      primary := "";
    } else {
      primary := best.value;
    }
  }

  /** At most one row is the primary one, so the rule picks a single row. */
  lemma PrimaryUnique(rows: seq<RouteRow>, n: nat, j1: nat, j2: nat)
    requires n <= |rows|
    requires IsPrimaryAmong(rows, n, j1) && IsPrimaryAmong(rows, n, j2)
    ensures j1 == j2
  {
  }

  /** The primary row has the lowest metric of all default gateway routes. */
  lemma PrimaryHasLowestMetric(rows: seq<RouteRow>, n: nat, j: nat, i: nat)
    requires n <= |rows| && IsPrimaryAmong(rows, n, j)
    requires i < n && IsDefaultGatewayRoute(rows[i])
    ensures rows[j].metric <= rows[i].metric
    ensures rows[i].metric == rows[j].metric ==> j <= i
  {
  }
}
