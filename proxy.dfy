/**
 * InvocationMetricsProxy: the invocation handler that times every call made
 * through the proxy of a target object and keeps per-method statistics, and
 * the process-wide registry that maps a caller's marker to the handler.
 *
 * Reflection is replaced by data: the target is the list of interfaces its
 * class implements (each with the methods `getMethods()` lists), a call names
 * its `Method`, the target's answer is an `Outcome`, and the elapsed time the
 * clock would measure is a parameter.
 */
module ProxyMetrics {
  import opened Wrappers
  import opened Statistics
  import opened MethodTable

  /** The proxied object, as far as the handler sees it: `getClass().getInterfaces()`. */
  datatype Target = Target(interfaces: seq<Interface>)

  /** What `method.invoke(target, args)` did: returned a value or threw. */
  datatype Outcome<V> = Returned(value: V) | Threw

  class InvocationMetricsProxy {
    const target: Target
    /** `methodStats`, in its iteration order. */
    var methodStats: seq<Entry>

    /** Keys are unique and are exactly those the constructor registered, in place. */
    ghost predicate Valid()
      reads this
    {
      && UniqueKeys(methodStats)
      && MethodsOf(methodStats) == MethodsOf(Initial(Flatten(target.interfaces)))
    }

    /** Registers a zeroed entry for every method of every interface; the first of equal signatures wins. */
    constructor (target: Target)
      ensures this.target == target
      ensures methodStats == Initial(Flatten(target.interfaces))
      ensures Valid()
    {
      this.target := target;
      methodStats := [];
      new;
      var interfaces := target.interfaces;
      for i := 0 to |interfaces|
        invariant methodStats == Initial(Flatten(interfaces[..i]))
      {
        ghost var done := Flatten(interfaces[..i]);
        var methods := interfaces[i].methods;
        assert done + methods[..0] == done;
        for j := 0 to |methods|
          invariant methodStats == Initial(done + methods[..j])
        {
          InitialStep(done, methods, j);
          methodStats := PutIfAbsent(methodStats, methods[j]);
        }
        FlattenSnoc(interfaces, i);
        assert methods[..|methods|] == methods;
      }
      assert interfaces[..|interfaces|] == interfaces;
      InitialTable(Flatten(interfaces));
    }

    /**
     * `invoke`: a call that returned folds `elapsed` into the entry of its
     * signature, if there is one, and yields the target's value; a call that
     * threw is swallowed, changes no statistics and yields null (`None`).
     */
    method Invoke<V>(m: Method, outcome: Outcome<V>, elapsed: Long) returns (result: Option<V>)
      requires Valid()
      modifies this
      ensures Valid()
      ensures result == if outcome.Returned? then Some(outcome.value) else None
      ensures outcome.Threw? ==> methodStats == old(methodStats)
      ensures outcome.Returned? ==> methodStats == Record(old(methodStats), m.signature, elapsed)
      ensures |methodStats| == |old(methodStats)|
      ensures forall k :: 0 <= k < |methodStats| ==>
                methodStats[k].meth == old(methodStats)[k].meth &&
                methodStats[k].stats ==
                  if outcome.Returned? && methodStats[k].meth.signature == m.signature
                  then Accept(old(methodStats)[k].stats, elapsed)
                  else old(methodStats)[k].stats
    {
      result := None;
      if outcome.Returned? {
        result := Some(outcome.value);
        RecordUpdatesOnlyItsEntry(methodStats, m.signature, elapsed);
        var found := Find(methodStats, m.signature);
        if found.Some? {
          var i := found.value;
          methodStats := methodStats[i := methodStats[i].(stats := Accept(methodStats[i].stats, elapsed))];
        }
        forall k | 0 <= k < |methodStats| ensures methodStats[k].meth == old(methodStats)[k].meth {
          assert MethodsOf(methodStats)[k] == MethodsOf(old(methodStats))[k];
        }
      }
    }

    /**
     * `getStatsForMethod`: walks the table in order, keeps the entries whose
     * method name matches, and stops after the first hit when asked.
     */
    method GetStatsForMethod(methodName: string, containsSearch: bool, stopOnFirstMatch: bool)
      returns (result: seq<StatsHit>)
      ensures result == Query(methodStats, methodName, containsSearch, stopOnFirstMatch)
    {
      var entries := methodStats;
      result := [];
      var i := 0;
      while i < |entries|
        invariant 0 <= i <= |entries|
        invariant result == Matching(entries[..i], methodName, containsSearch)
        invariant stopOnFirstMatch ==> result == []
      {
        assert entries[..i + 1][..i] == entries[..i];
        var hit := Matches(entries[i].meth, methodName, containsSearch);
        if hit {
          result := result + [HitOf(entries[i])];
          if stopOnFirstMatch {
            MatchingPrefix(entries, i + 1, methodName, containsSearch);
            break;
          }
        }
        i := i + 1;
      }
      assert entries[..|entries|] == entries;
    }

    /** `logStats()`: one report block per table entry, in table order. */
    method LogStats() returns (blocks: seq<ReportBlock>)
      ensures |blocks| == |methodStats|
      ensures forall k :: 0 <= k < |blocks| ==> blocks[k] == Report(HitOf(methodStats[k]))
    {
      blocks := [];
      for k := 0 to |methodStats|
        invariant |blocks| == k
        invariant forall l :: 0 <= l < k ==> blocks[l] == Report(HitOf(methodStats[l]))
      {
        var entry := methodStats[k];
        blocks := blocks + [Report(HitOf(entry))];
      }
    }

    /** `logStats(name, containsSearch, stopOnFirstMatch)`: one report block per query result, in order. */
    method LogStatsMatching(methodName: string, containsSearch: bool, stopOnFirstMatch: bool)
      returns (blocks: seq<ReportBlock>)
      ensures var hits := Query(methodStats, methodName, containsSearch, stopOnFirstMatch);
              |blocks| == |hits| && forall k :: 0 <= k < |hits| ==> blocks[k] == Report(hits[k])
    {
      var stats := GetStatsForMethod(methodName, containsSearch, stopOnFirstMatch);
      blocks := [];
      for k := 0 to |stats|
        invariant |blocks| == k
        invariant forall l :: 0 <= l < k ==> blocks[l] == Report(stats[l])
      {
        blocks := blocks + [Report(stats[k])];
      }
    }

    /** `logStats(name)`: the exact-name, stop-on-first form of the query above. */
    method LogStatsNamed(methodName: string) returns (blocks: seq<ReportBlock>)
      ensures var hits := Query(methodStats, methodName, false, true);
              |blocks| == |hits| && forall k :: 0 <= k < |hits| ==> blocks[k] == Report(hits[k])
      ensures |blocks| <= 1
    {
      blocks := LogStatsMatching(methodName, false, true);
      FirstMatchOnly(methodStats, methodName, false);
    }
  }

  /** The process-wide `objectProxyMap` from markers to handlers. */
  class MetricsRegistry<M(==)> {
    var objectProxyMap: map<M, InvocationMetricsProxy>

    constructor ()
      ensures objectProxyMap == map[]
    {
      objectProxyMap := map[];
    }

    /**
     * `newInstance(obj, marker)`: builds a handler for `obj` and registers it
     * under `marker` only if the marker is not registered yet; the new handler
     * is returned either way.
     */
    method NewInstance(obj: Target, marker: M) returns (proxy: InvocationMetricsProxy)
      modifies this
      ensures fresh(proxy) && proxy.Valid()
      ensures proxy.target == obj && proxy.methodStats == Initial(Flatten(obj.interfaces))
      ensures objectProxyMap == Register(old(objectProxyMap), marker, proxy)
    {
      proxy := new InvocationMetricsProxy(obj);
      if marker !in objectProxyMap {
        objectProxyMap := objectProxyMap[marker := proxy];
      }
    }

    /** `getMetricsProxy(marker)`: the registered handler, or empty for an unknown marker. */
    function GetMetricsProxy(marker: M): (r: Option<InvocationMetricsProxy>)
      reads this
      ensures r.Some? <==> marker in objectProxyMap
      ensures r.Some? ==> r.value == objectProxyMap[marker]
    {
      if marker in objectProxyMap then Some(objectProxyMap[marker]) else None
    }
  }

  /** `putIfAbsent` on the marker map: the first registration for a key wins. */
  function Register<K, V>(m: map<K, V>, k: K, v: V): map<K, V>
  {
    if k in m then m else m[k := v]
  }

  /** One call of `newInstance`: the marker and the handler it created. */
  datatype Registration<K, V> = Registration(marker: K, handler: V)

  /** The marker map after a sequence of `newInstance` calls, oldest first. */
  function RegisterAll<K, V>(m: map<K, V>, regs: seq<Registration<K, V>>): map<K, V>
    decreases |regs|
  {
    if regs == [] then m
    else
      var last := regs[|regs| - 1];
      Register(RegisterAll(m, regs[..|regs| - 1]), last.marker, last.handler)
  }

  /**
   * Starting from the empty registry, a marker is registered exactly when
   * some `newInstance` call used it, and it then maps to the handler of the
   * FIRST such call; a never-used marker stays absent.
   */
  lemma {:induction false} FirstRegistrationWins<K, V>(regs: seq<Registration<K, V>>, k: K)
    ensures k in RegisterAll(map[], regs) <==> exists i :: 0 <= i < |regs| && regs[i].marker == k
    ensures forall i :: (0 <= i < |regs| && regs[i].marker == k &&
                         forall j :: 0 <= j < i ==> regs[j].marker != k) ==>
              RegisterAll(map[], regs)[k] == regs[i].handler
    decreases |regs|
  {
    if regs != [] {
      var init := regs[..|regs| - 1];
      FirstRegistrationWins(init, k);
      forall i | 0 <= i < |regs| && regs[i].marker == k &&
                 forall j :: 0 <= j < i ==> regs[j].marker != k
        ensures RegisterAll(map[], regs)[k] == regs[i].handler
      {
        if i < |init| {
          assert init[i] == regs[i];
          forall j | 0 <= j < i ensures init[j].marker != k {
            assert init[j] == regs[j];
          }
        } else {
          forall j | 0 <= j < |init| ensures init[j].marker != k {
            assert init[j] == regs[j];
          }
        }
      }
      if k in RegisterAll(map[], init) {
        var i :| 0 <= i < |init| && init[i].marker == k;
        assert regs[i] == init[i];
      }
    }
  }
}
