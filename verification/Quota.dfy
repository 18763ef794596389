/** internal/quota: the per-namespace counters and the limits checked against them. The limiter
    owns its counter; both are one object here. */
module Quota {
  import opened Base
  import opened Meta

  function Max(a: int, b: int): int {
    if a >= b then a else b
  }

  /** Usage.Add: counters never go below zero. */
  function AddUsage(u: Usage, keys: int, bytes: int): Usage {
    Usage(if u.keys + keys < 0 then 0 else u.keys + keys, if u.bytes + bytes < 0 then 0 else u.bytes + bytes)
  }

  function UsageOf(use: map<Bytes, Usage>, ns: Bytes): Usage {
    if ns in use then use[ns] else Usage(0, 0)
  }

  function Applied(use: map<Bytes, Usage>, ns: Bytes, keys: int, bytes: int): map<Bytes, Usage> {
    use[ns := AddUsage(UsageOf(use, ns), keys, bytes)]
  }

  /** Counter.Set drops a counter that becomes zero. */
  function Assigned(use: map<Bytes, Usage>, ns: Bytes, u: Usage): map<Bytes, Usage> {
    if u == Usage(0, 0) then use - {ns} else use[ns := u]
  }

  /** Why a write that adds a key or bytes to n is refused, if it is. */
  function CheckError(use: map<Bytes, Usage>, n: Namespace, newKey: bool, addBytes: int): Option<Error> {
    var u := UsageOf(use, n.id);
    if n.id == [] then Some(Error(InvalidArg, Lit("quota ns")))
    else if n.maxKeys > 0 && u.keys + (if newKey then 1 else 0) > n.maxKeys then Some(Error(QuotaKeys, n.id))
    else if n.maxBytes > 0 && u.bytes + addBytes > n.maxBytes then Some(Error(QuotaBytes, n.id))
    else None
  }

  class Limiter {
    var use: map<Bytes, Usage>

    constructor ()
      ensures use == map[]
    {
      use := map[];
    }

    method Check(n: Namespace, newKey: bool, addBytes: int) returns (err: Option<Error>)
      ensures err == CheckError(use, n, newKey, addBytes)
      ensures err.None? <==>
                && n.id != []
                && (n.maxKeys > 0 ==> UsageOf(use, n.id).keys + (if newKey then 1 else 0) <= n.maxKeys)
                && (n.maxBytes > 0 ==> UsageOf(use, n.id).bytes + addBytes <= n.maxBytes)
    {
      if n.id == [] {
        return Some(Error(InvalidArg, Lit("quota ns")));
      }
      var u := if n.id in use then use[n.id] else Usage(0, 0);
      var keys := u.keys;
      if newKey {
        keys := keys + 1;
      }
      if n.maxKeys > 0 && keys > n.maxKeys {
        return Some(Error(QuotaKeys, n.id));
      }
      var bytes := u.bytes + addBytes;
      if n.maxBytes > 0 && bytes > n.maxBytes {
        return Some(Error(QuotaBytes, n.id));
      }
      err := None;
    }

    method Commit(ns: Bytes, keys: int, bytes: int)
      modifies this
      ensures use == Applied(old(use), ns, keys, bytes)
      ensures var u := UsageOf(old(use), ns);
              use == old(use)[ns := Usage(Max(0, u.keys + keys), Max(0, u.bytes + bytes))]
    {
      var u := if ns in use then use[ns] else Usage(0, 0);
      u := u.(keys := u.keys + keys, bytes := u.bytes + bytes);
      if u.keys < 0 {
        u := u.(keys := 0);
      }
      if u.bytes < 0 {
        u := u.(bytes := 0);
      }
      use := use[ns := u];
    }

    method Recalc(ns: Bytes, keys: int, bytes: int)
      modifies this
      ensures use == Assigned(old(use), ns, Usage(keys, bytes))
    {
      if keys == 0 && bytes == 0 {
        use := use - {ns};
        return;
      }
      use := use[ns := Usage(keys, bytes)];
    }

    method DeleteNS(ns: Bytes)
      modifies this
      ensures use == old(use) - {ns}
    {
      use := use - {ns};
    }

    method ReplaceAll(m: map<Bytes, Usage>)
      modifies this
      ensures use == m
    {
      use := m;
    }

    method Export() returns (m: map<Bytes, Usage>)
      ensures m == use
    {
      m := use;
    }
  }
}
