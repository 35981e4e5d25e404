/** The host's policy routing as the client uses it: how many rules point at table 9000, how many
    suppress rules there are, and what table 9000 holds. The `ip` commands do what they say. */
module PolicyRules {

  type Prefix = string

  const DEFAULT_ROUTE: Prefix := "0.0.0.0/0"
  const RULE_LIMIT := 64
  const SUPPRESS_LIMIT := 8

  /** What is left of `n` stale rules after at most `limit` deletions. */
  function Left(n: nat, limit: nat): nat {
    if n <= limit then 0 else n - limit
  }

  class Host {
    var tableRules: nat
    var suppressRules: nat
    var table: set<Prefix>
    /** The client's global flag. */
    var fullTunnel: bool

    constructor (tableRules: nat, suppressRules: nat, table: set<Prefix>)
      ensures this.tableRules == tableRules && this.suppressRules == suppressRules && this.table == table && !fullTunnel
    {
      this.tableRules, this.suppressRules, this.table, this.fullTunnel := tableRules, suppressRules, table, false;
    }

    /** `ip rule del table 9000`: deletes one match, fails if there is none. */
    method RuleDel() returns (ok: bool)
      modifies this`tableRules
      ensures ok == (old(tableRules) > 0) && tableRules == old(tableRules) - (if ok then 1 else 0)
    {
      ok := tableRules > 0;
      if ok {
        tableRules := tableRules - 1;
      }
    }

    /** `ip rule del table main suppress_prefixlength 0`. */
    method SuppressDel() returns (ok: bool)
      modifies this`suppressRules
      ensures ok == (old(suppressRules) > 0) && suppressRules == old(suppressRules) - (if ok then 1 else 0)
    {
      ok := suppressRules > 0;
      if ok {
        suppressRules := suppressRules - 1;
      }
    }

    /** `delAllTable9000Rules`. */
    method DelAllTableRules()
      modifies this`tableRules
      ensures tableRules == Left(old(tableRules), RULE_LIMIT)
    {
      for i := 0 to RULE_LIMIT
        invariant tableRules == Left(old(tableRules), i)
      {
        var ok := RuleDel();
        if !ok {
          break;
        }
      }
    }

    /** `delSuppressRule`. */
    method DelSuppressRules()
      modifies this`suppressRules
      ensures suppressRules == Left(old(suppressRules), SUPPRESS_LIMIT)
    {
      for i := 0 to SUPPRESS_LIMIT
        invariant suppressRules == Left(old(suppressRules), i)
      {
        var ok := SuppressDel();
        if !ok {
          break;
        }
      }
    }

    /** The rule part of `Bootstrap`. It leaves exactly one table rule if and only if at most
        RULE_LIMIT were stale, and as many suppress rules as wanted if and only if at most
        SUPPRESS_LIMIT were. */
    method Bootstrap()
      modifies this`tableRules, this`suppressRules
      ensures tableRules == Left(old(tableRules), RULE_LIMIT) + 1
      ensures suppressRules == Left(old(suppressRules), SUPPRESS_LIMIT) + (if fullTunnel then 1 else 0)
      ensures tableRules == 1 <==> old(tableRules) <= RULE_LIMIT
      ensures suppressRules == (if fullTunnel then 1 else 0) <==> old(suppressRules) <= SUPPRESS_LIMIT
    {
      DelAllTableRules();
      DelSuppressRules();
      tableRules := tableRules + 1;
      if fullTunnel {
        suppressRules := suppressRules + 1;
      }
    }

    /** `GracefullyShutdown`. */
    method GracefullyShutdown()
      modifies this`tableRules, this`suppressRules, this`table
      ensures tableRules == Left(old(tableRules), RULE_LIMIT)
      ensures suppressRules == Left(old(suppressRules), SUPPRESS_LIMIT)
      ensures table == {}
    {
      DelAllTableRules();
      DelSuppressRules();
      table := {};
    }

    /** The route loop of `establishTunTapAndRoutes`: `ip route replace` for each prefix, the
        first `good` of which succeed. */
    method InstallRoutes(routes: seq<Prefix>, good: nat) returns (ok: bool)
      modifies this`table, this`fullTunnel
      ensures ok <==> good >= |routes|
      ensures ok ==> fullTunnel == ("0.0.0.0/0" in routes) && forall p :: p in table <==> p in old(table) || p in routes
      ensures !ok ==>
        && fullTunnel == ("0.0.0.0/0" in routes[..good + 1])
        && forall p :: p in table <==> p in old(table) || p in routes[..good]
    {
      fullTunnel := false;
      for i := 0 to |routes|
        invariant i <= good
        invariant fullTunnel == (DEFAULT_ROUTE in routes[..i])
        invariant forall p :: p in table <==> p in old(table) || p in routes[..i]
      {
        assert routes[..i + 1] == routes[..i] + [routes[i]];
        if routes[i] == DEFAULT_ROUTE {
          fullTunnel := true;
        }
        if i >= good {
          return false;
        }
        table := table + {routes[i]};
      }
      assert routes[..|routes|] == routes;
      ok := true;
    }
  }
}
