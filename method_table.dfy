/**
 * The per-proxy statistics table (`methodStats`) as a value: a sequence of
 * entries keyed by the method's signature string, in the table's iteration
 * order. This module defines what building, updating, querying and reporting
 * on that table mean; the class in proxy.dfy performs those steps in place.
 */
module MethodTable {
  import opened Wrappers
  import opened Statistics

  /** A reflected interface method: its simple name (`getName()`) and its
      `toString()` rendering, which serves as the table key. */
  datatype Method = Method(name: string, signature: string)

  /** An interface the target class implements, with the methods `getMethods()` lists. */
  datatype Interface = Interface(methods: seq<Method>)

  /** One table entry: the method and its running statistics. */
  datatype Entry = Entry(meth: Method, stats: Stats)

  /** A query result: the signature string paired with a statistics snapshot. */
  datatype StatsHit = StatsHit(signature: string, stats: Stats)

  /** One emitted report: the preamble lines, then count, min, max and average of `stats`. */
  datatype ReportBlock = ReportBlock(preamble: seq<string>, stats: Stats)

  ghost predicate UniqueKeys(t: seq<Entry>)
  {
    forall i, j :: 0 <= i < j < |t| ==> t[i].meth.signature != t[j].meth.signature
  }

  function MethodsOf(t: seq<Entry>): seq<Method>
  {
    seq(|t|, i requires 0 <= i < |t| => t[i].meth)
  }

  /** Lookup by key (`methodStats.get(signature)`): the position of the entry, if any. */
  function Find(t: seq<Entry>, sig: string): (r: Option<nat>)
    ensures r.Some? ==> r.value < |t| && t[r.value].meth.signature == sig
    ensures r.Some? ==> forall j :: 0 <= j < r.value ==> t[j].meth.signature != sig
    ensures r.None? ==> forall j :: 0 <= j < |t| ==> t[j].meth.signature != sig
  {
    if t == [] then None
    else if t[0].meth.signature == sig then Some(0)
    else match Find(t[1..], sig)
      case None => None
      case Some(i) => Some(i + 1)
  }

  // ---------------------------------------------------------------- construction

  /** `putIfAbsent(m.toString(), (m, new LongSummaryStatistics()))`. */
  function PutIfAbsent(t: seq<Entry>, m: Method): seq<Entry>
  {
    if Find(t, m.signature).Some? then t else t + [Entry(m, Empty)]
  }

  /** All methods of all interfaces, interface by interface. */
  function Flatten(interfaces: seq<Interface>): seq<Method>
    decreases |interfaces|
  {
    if interfaces == [] then []
    else Flatten(interfaces[..|interfaces| - 1]) + interfaces[|interfaces| - 1].methods
  }

  /** The table the constructor builds: every method put into an empty table, in order. */
  function Initial(ms: seq<Method>): seq<Entry>
    decreases |ms|
  {
    if ms == [] then [] else PutIfAbsent(Initial(ms[..|ms| - 1]), ms[|ms| - 1])
  }

  /** One step of the constructor's inner loop: the next method of the current interface. */
  lemma InitialStep(done: seq<Method>, methods: seq<Method>, j: nat)
    requires j < |methods|
    ensures Initial(done + methods[..j + 1]) == PutIfAbsent(Initial(done + methods[..j]), methods[j])
  {
    var ms := done + methods[..j + 1];
    assert ms[..|ms| - 1] == done + methods[..j];
  }

  lemma FlattenSnoc(interfaces: seq<Interface>, i: nat)
    requires i < |interfaces|
    ensures Flatten(interfaces[..i + 1]) == Flatten(interfaces[..i]) + interfaces[i].methods
  {
    assert interfaces[..i + 1][..i] == interfaces[..i];
  }

  ghost function Signatures(ms: seq<Method>): set<string>
  {
    set m | m in ms :: m.signature
  }

  lemma SignaturesSnoc(ms: seq<Method>, m: Method)
    ensures Signatures(ms + [m]) == Signatures(ms) + {m.signature}
  {
    assert forall x :: x in ms + [m] <==> x in ms || x == m;
  }

  /** Putting a method into a table with unique keys keeps the keys unique,
      adds its signature as a key, and only ever appends a zeroed entry. */
  lemma PutIfAbsentEffect(t: seq<Entry>, m: Method)
    requires UniqueKeys(t)
    ensures UniqueKeys(PutIfAbsent(t, m))
    ensures forall sig :: Find(PutIfAbsent(t, m), sig).Some? <==>
              Find(t, sig).Some? || sig == m.signature
    ensures |PutIfAbsent(t, m)| == |t| + if Find(t, m.signature).Some? then 0 else 1
    ensures forall k :: 0 <= k < |t| ==> PutIfAbsent(t, m)[k] == t[k]
    ensures Find(t, m.signature).None? ==> PutIfAbsent(t, m)[|t|] == Entry(m, Empty)
  {
    var r := PutIfAbsent(t, m);
    forall sig | Find(t, sig).Some? || sig == m.signature
      ensures Find(r, sig).Some?
    {
      if Find(t, sig).Some? {
        assert r[Find(t, sig).value] == t[Find(t, sig).value];
      } else {
        assert r[|r| - 1].meth.signature == sig;
      }
    }
  }

  /** The freshly built table has unique keys, exactly the listed signatures, all zeroed. */
  lemma {:induction false} InitialKeys(ms: seq<Method>)
    ensures UniqueKeys(Initial(ms))
    ensures forall sig :: Find(Initial(ms), sig).Some? <==> sig in Signatures(ms)
    ensures forall k :: 0 <= k < |Initial(ms)| ==> Initial(ms)[k].stats == Empty
    decreases |ms|
  {
    if ms != [] {
      var init, m := ms[..|ms| - 1], ms[|ms| - 1];
      var t0 := Initial(init);
      InitialKeys(init);
      assert Initial(ms) == PutIfAbsent(t0, m);
      assert Signatures(ms) == Signatures(init) + {m.signature} by {
        assert ms == init + [m];
        SignaturesSnoc(init, m);
      }
      PutIfAbsentEffect(t0, m);
      forall k | 0 <= k < |Initial(ms)| ensures Initial(ms)[k].stats == Empty {
        if k < |t0| {
          assert Initial(ms)[k] == t0[k];
        }
      }
    }
  }

  /** The freshly built table has one entry per distinct signature. */
  lemma {:induction false} InitialSize(ms: seq<Method>)
    ensures |Initial(ms)| == |Signatures(ms)|
    decreases |ms|
  {
    if ms == [] {
      assert Signatures(ms) == {};
    } else {
      var init, m := ms[..|ms| - 1], ms[|ms| - 1];
      var t0 := Initial(init);
      InitialSize(init);
      InitialKeys(init);
      assert Initial(ms) == PutIfAbsent(t0, m);
      assert Signatures(ms) == Signatures(init) + {m.signature} by {
        assert ms == init + [m];
        SignaturesSnoc(init, m);
      }
      if m.signature in Signatures(init) {
        assert Find(t0, m.signature).Some?;
        assert Signatures(ms) == Signatures(init);
      } else {
        assert Find(t0, m.signature).None?;
        assert |Signatures(ms)| == |Signatures(init)| + 1;
      }
    }
  }

  /**
   * The freshly built table holds exactly one entry per distinct signature,
   * and every entry is zeroed.
   */
  lemma InitialTable(ms: seq<Method>)
    ensures UniqueKeys(Initial(ms))
    ensures forall sig :: Find(Initial(ms), sig).Some? <==> sig in Signatures(ms)
    ensures |Initial(ms)| == |Signatures(ms)|
    ensures forall k :: 0 <= k < |Initial(ms)| ==> Initial(ms)[k].stats == Empty
  {
    InitialKeys(ms);
    InitialSize(ms);
  }

  /** `ms[j]` is the first method in `ms` with its signature. */
  ghost predicate FirstListed(ms: seq<Method>, j: int)
  {
    0 <= j < |ms| && forall l :: 0 <= l < j ==> ms[l].signature != ms[j].signature
  }

  lemma FirstListedSnoc(ms: seq<Method>, m: Method, j: int)
    requires FirstListed(ms, j)
    ensures FirstListed(ms + [m], j) && (ms + [m])[j] == ms[j]
  {
  }

  lemma FirstListedNew(ms: seq<Method>, m: Method)
    requires m.signature !in Signatures(ms)
    ensures FirstListed(ms + [m], |ms|) && (ms + [m])[|ms|] == m
  {
    forall l | 0 <= l < |ms| ensures (ms + [m])[l].signature != m.signature {
      assert ms[l] in ms;
    }
  }

  /**
   * Each entry of the freshly built table holds the FIRST method listed with
   * its signature: a repeated signature keeps its first entry.
   */
  lemma {:induction false} InitialKeepsFirst(ms: seq<Method>)
    ensures forall k :: 0 <= k < |Initial(ms)| ==>
              exists j :: FirstListed(ms, j) && ms[j] == Initial(ms)[k].meth
    decreases |ms|
  {
    if ms == [] {
      assert Initial(ms) == [];
    } else {
      var init, m := ms[..|ms| - 1], ms[|ms| - 1];
      assert ms == init + [m];
      InitialKeepsFirst(init);
      InitialKeys(init);
      var t0, t := Initial(init), Initial(ms);
      PutIfAbsentEffect(t0, m);
      assert t == PutIfAbsent(t0, m);
      forall k | 0 <= k < |t|
        ensures exists j :: FirstListed(ms, j) && ms[j] == t[k].meth
      {
        if k < |t0| {
          assert t[k] == t0[k];
          var j :| FirstListed(init, j) && init[j] == t0[k].meth;
          FirstListedSnoc(init, m, j);
        } else {
          assert Find(t0, m.signature).None? && k == |t0| && t[k].meth == m;
          FirstListedNew(init, m);
        }
      }
    }
  }

  // ---------------------------------------------------------------- invocation

  /** Folding one elapsed duration into the entry registered for `sig`, if any. */
  function Record(t: seq<Entry>, sig: string, elapsed: Long): (r: seq<Entry>)
    ensures |r| == |t|
  {
    match Find(t, sig)
    case None => t
    case Some(i) => t[i := t[i].(stats := Accept(t[i].stats, elapsed))]
  }

  /**
   * Recording keeps every key in its place, folds `elapsed` into the entry
   * whose key is `sig` and leaves every other entry as it was; an unknown
   * signature changes nothing.
   */
  lemma RecordUpdatesOnlyItsEntry(t: seq<Entry>, sig: string, elapsed: Long)
    requires UniqueKeys(t)
    ensures UniqueKeys(Record(t, sig, elapsed))
    ensures |Record(t, sig, elapsed)| == |t|
    ensures MethodsOf(Record(t, sig, elapsed)) == MethodsOf(t)
    ensures forall k :: 0 <= k < |t| ==>
              Record(t, sig, elapsed)[k].stats ==
                if t[k].meth.signature == sig then Accept(t[k].stats, elapsed) else t[k].stats
    ensures Find(t, sig).None? ==> Record(t, sig, elapsed) == t
  {
  }

  /** One completed call to the target: its signature and measured duration. */
  datatype Call = Call(signature: string, elapsed: Long)

  /** The table after a sequence of completed calls, oldest first. */
  function Replay(t: seq<Entry>, calls: seq<Call>): (r: seq<Entry>)
    ensures |r| == |t|
    decreases |calls|
  {
    if calls == [] then t
    else
      var last := calls[|calls| - 1];
      Record(Replay(t, calls[..|calls| - 1]), last.signature, last.elapsed)
  }

  /** The durations of the calls made to `sig`, oldest first. */
  function ElapsedFor(calls: seq<Call>, sig: string): seq<Long>
    decreases |calls|
  {
    if calls == [] then []
    else
      var last := calls[|calls| - 1];
      ElapsedFor(calls[..|calls| - 1], sig) + if last.signature == sig then [last.elapsed] else []
  }

  /**
   * After any sequence of calls, every entry's statistics are its previous
   * statistics with exactly the durations of the calls to its own signature
   * folded in, in call order; keys never change.
   */
  lemma {:induction false} ReplayFoldsEachEntry(t: seq<Entry>, calls: seq<Call>)
    requires UniqueKeys(t)
    ensures UniqueKeys(Replay(t, calls))
    ensures MethodsOf(Replay(t, calls)) == MethodsOf(t)
    ensures |Replay(t, calls)| == |t|
    ensures forall k :: 0 <= k < |t| ==>
              Replay(t, calls)[k].stats ==
                AcceptAll(t[k].stats, ElapsedFor(calls, t[k].meth.signature))
    decreases |calls|
  {
    if calls != [] {
      var init, last := calls[..|calls| - 1], calls[|calls| - 1];
      ReplayFoldsEachEntry(t, init);
      var r0 := Replay(t, init);
      RecordUpdatesOnlyItsEntry(r0, last.signature, last.elapsed);
      forall k | 0 <= k < |t|
        ensures Replay(t, calls)[k].stats ==
                  AcceptAll(t[k].stats, ElapsedFor(calls, t[k].meth.signature))
      {
        var sig := t[k].meth.signature;
        assert MethodsOf(r0)[k] == MethodsOf(t)[k];
        var e := ElapsedFor(init, sig);
        if last.signature == sig {
          assert ElapsedFor(calls, sig) == e + [last.elapsed];
          assert (e + [last.elapsed])[..|e|] == e;
        } else {
          assert ElapsedFor(calls, sig) == e + [] == e;
        }
      }
    }
  }

  /**
   * From a freshly built table, after any sequence of calls, each method's
   * count is exactly the number of calls to it, and its min and max bracket
   * every duration measured for it.
   */
  lemma CountsMatchCalls(ms: seq<Method>, calls: seq<Call>, k: nat)
    requires k < |Initial(ms)|
    ensures var sig := Initial(ms)[k].meth.signature;
            var s := Replay(Initial(ms), calls)[k].stats;
            && s.count == |ElapsedFor(calls, sig)|
            && forall i :: 0 <= i < |ElapsedFor(calls, sig)| ==>
                 s.min <= ElapsedFor(calls, sig)[i] <= s.max
  {
    InitialTable(ms);
    ReplayFoldsEachEntry(Initial(ms), calls);
    FromEmpty(ElapsedFor(calls, Initial(ms)[k].meth.signature));
  }

  // ---------------------------------------------------------------- query

  predicate IsPrefix(p: string, s: string)
  {
    |p| <= |s| && s[..|p|] == p
  }

  /** Java's `s.contains(t)`: `t` occurs in `s` (the empty string occurs everywhere). */
  predicate Contains(s: string, t: string)
    decreases |s|
  {
    IsPrefix(t, s) || (|s| > 0 && Contains(s[1..], t))
  }

  /** Contains means: some window of `s` equals `t`. */
  lemma {:induction false} ContainsIff(s: string, t: string)
    ensures Contains(s, t) <==> exists i :: 0 <= i <= |s| && IsPrefix(t, s[i..])
    decreases |s|
  {
    assert s[0..] == s;
    if |s| > 0 {
      ContainsIff(s[1..], t);
      if Contains(s[1..], t) {
        var i :| 0 <= i <= |s| - 1 && IsPrefix(t, s[1..][i..]);
        assert s[1..][i..] == s[i + 1..];
      }
      if i :| 0 <= i <= |s| && IsPrefix(t, s[i..]) {
        if i > 0 {
          assert s[1..][i - 1..] == s[i..];
        }
      }
    }
  }

  /** The match predicate: name equality, or substring when `containsSearch`. */
  predicate Matches(m: Method, name: string, containsSearch: bool)
  {
    if containsSearch then Contains(m.name, name) else m.name == name
  }

  function HitOf(e: Entry): StatsHit
  {
    StatsHit(e.meth.signature, e.stats)
  }

  /** The matching entries as query results, in table order. */
  function Matching(t: seq<Entry>, name: string, containsSearch: bool): seq<StatsHit>
    decreases |t|
  {
    if t == [] then []
    else
      var last := t[|t| - 1];
      Matching(t[..|t| - 1], name, containsSearch)
        + if Matches(last.meth, name, containsSearch) then [HitOf(last)] else []
  }

  /** `getStatsForMethod`: all matches, or only the first one when `stopOnFirstMatch`. */
  function Query(t: seq<Entry>, name: string, containsSearch: bool, stopOnFirstMatch: bool): seq<StatsHit>
  {
    var all := Matching(t, name, containsSearch);
    if stopOnFirstMatch && all != [] then all[..1] else all
  }

  /** The matches within a prefix of the table are a prefix of all the matches. */
  lemma {:induction false} MatchingPrefix(t: seq<Entry>, n: nat, name: string, containsSearch: bool)
    requires n <= |t|
    ensures |Matching(t[..n], name, containsSearch)| <= |Matching(t, name, containsSearch)|
    ensures Matching(t, name, containsSearch)[..|Matching(t[..n], name, containsSearch)|]
            == Matching(t[..n], name, containsSearch)
    decreases |t| - n
  {
    if n == |t| {
      assert t[..n] == t;
    } else {
      var init := t[..|t| - 1];
      MatchingPrefix(init, n, name, containsSearch);
      assert init[..n] == t[..n];
      var a, b := Matching(init, name, containsSearch), Matching(t, name, containsSearch);
      assert b[..|a|] == a;
    }
  }

  /**
   * Matching is exactly the ordered filter of the table by the predicate:
   * result k comes from a matching entry at index idx[k], the indices are
   * strictly increasing, and every matching entry is among them.
   */
  lemma {:induction false} MatchingIsOrderedFilter(t: seq<Entry>, name: string, containsSearch: bool)
    returns (idx: seq<nat>)
    ensures |idx| == |Matching(t, name, containsSearch)|
    ensures forall k :: 0 <= k < |idx| ==>
              idx[k] < |t| && Matches(t[idx[k]].meth, name, containsSearch) &&
              Matching(t, name, containsSearch)[k] == HitOf(t[idx[k]])
    ensures forall k, l :: 0 <= k < l < |idx| ==> idx[k] < idx[l]
    ensures forall i :: 0 <= i < |t| && Matches(t[i].meth, name, containsSearch) ==> i in idx
    decreases |t|
  {
    if t == [] {
      idx := [];
    } else {
      var n := |t| - 1;
      var init := t[..n];
      idx := MatchingIsOrderedFilter(init, name, containsSearch);
      if Matches(t[n].meth, name, containsSearch) {
        idx := idx + [n];
      }
    }
  }

  /**
   * Stopping on the first match yields nothing exactly when no entry
   * matches, and otherwise the one result of the first matching entry in
   * table order.
   */
  lemma FirstMatchOnly(t: seq<Entry>, name: string, containsSearch: bool)
    ensures |Query(t, name, containsSearch, true)| <= 1
    ensures Query(t, name, containsSearch, true) == [] <==>
              forall i :: 0 <= i < |t| ==> !Matches(t[i].meth, name, containsSearch)
    ensures forall i :: (0 <= i < |t| && Matches(t[i].meth, name, containsSearch) &&
                         forall j :: 0 <= j < i ==> !Matches(t[j].meth, name, containsSearch)) ==>
              Query(t, name, containsSearch, true) == [HitOf(t[i])]
  {
    var idx := MatchingIsOrderedFilter(t, name, containsSearch);
    forall i | 0 <= i < |t| && Matches(t[i].meth, name, containsSearch) &&
               (forall j :: 0 <= j < i ==> !Matches(t[j].meth, name, containsSearch))
      ensures Query(t, name, containsSearch, true) == [HitOf(t[i])]
    {
      assert i in idx;
      var k :| 0 <= k < |idx| && idx[k] == i;
      assert Matches(t[idx[0]].meth, name, containsSearch);
    }
    if Matching(t, name, containsSearch) != [] {
      assert Matches(t[idx[0]].meth, name, containsSearch);
    }
  }

  /** Every result of an exact-name query belongs to a method of that name. */
  lemma ExactQueryMatchesName(t: seq<Entry>, name: string, stopOnFirstMatch: bool)
    ensures forall h :: h in Query(t, name, false, stopOnFirstMatch) ==>
              exists i :: 0 <= i < |t| && t[i].meth.name == name && h == HitOf(t[i])
  {
    var idx := MatchingIsOrderedFilter(t, name, false);
    forall h | h in Query(t, name, false, stopOnFirstMatch)
      ensures exists i :: 0 <= i < |t| && t[i].meth.name == name && h == HitOf(t[i])
    {
      var k :| 0 <= k < |Matching(t, name, false)| && Matching(t, name, false)[k] == h;
      assert t[idx[k]].meth.name == name;
    }
  }

  /** The empty name is contained in every name, so a contains-search for it lists the whole table. */
  lemma {:induction false} EmptyNameMatchesAll(t: seq<Entry>)
    ensures Matching(t, "", true) == seq(|t|, k requires 0 <= k < |t| => HitOf(t[k]))
    decreases |t|
  {
    if t != [] {
      EmptyNameMatchesAll(t[..|t| - 1]);
      assert Contains(t[|t| - 1].meth.name, "") by {
        assert IsPrefix("", t[|t| - 1].meth.name);
      }
    }
  }

  // ---------------------------------------------------------------- reporting

  /** The preamble line `logStats` puts above each block. */
  function Header(signature: string): string
  {
    "++++ Stats for " + signature + " ++++"
  }

  /** The static `log(statistics, additionals...)`. */
  function Log(stats: Stats, additionals: seq<string>): ReportBlock
  {
    ReportBlock(additionals, stats)
  }

  function Report(h: StatsHit): ReportBlock
  {
    Log(h.stats, [Header(h.signature)])
  }
}
