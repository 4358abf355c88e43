/** Whole runs of the address manager, restarts included: the consistency check always passes, and the tables
    stay bounded. */
module AddrRestarts {
  import opened AddrBook
  import opened AddrMan
  import opened AddrCheck
  import opened AddrReload
  import opened AddrRuns

  /** An operation, or a restart: the manager is saved and another one loaded from the file. */
  datatype Event = Do(op: Op) | Restart

  /** What is stored of the times is enough: a loaded manager has proper times if the saved one has. */
  lemma RestartTimes(k: Book, k': Book, all: seq<int>)
    requires SameUpToIds(k, k', all) && TimesOk(k.infos)
    ensures TimesOk(k'.infos)
  {
    forall i | i in k'.infos ensures EntryTimesOk(k'.infos[i]) {
      assert all[i] in all;
      assert all[i] in k.infos && EntryTimesOk(k.infos[all[i]]);
    }
  }

  predicate Positive(e: Event) { e.Do? ==> PositiveTime(e.op) }

  /** One event, and the consistency check after it. */
  method Live(m: AddrMan, e: Event) returns (m': AddrMan, code: int)
    requires m.Consistent()
    modifies m
    ensures m'.Consistent() && (m' == m || fresh(m'))
    ensures old(TimesOk(m.infos)) && Positive(e) ==> TimesOk(m'.infos) && code == 0
  {
    match e {
      case Do(op) =>
        Step(m, op);
        m' := m;
      case Restart =>
        ghost var k, all := m.Now(), [];
        m', all := SaveAndLoad(m);
        if TimesOk(k.infos) { RestartTimes(k, m'.Now(), all); }
    }
    CheckDecidesTimes(m'.env, m'.Now());
    code := Check(m');
  }

  /** Any run from the empty manager, with the consistency check after every event. */
  method Run(env: Env, key: seq<int>, events: seq<Event>) returns (m: AddrMan, codes: seq<int>)
    ensures fresh(m) && m.Consistent() && |codes| == |events|
    ensures (forall i :: 0 <= i < |events| ==> Positive(events[i])) ==> forall i :: 0 <= i < |codes| ==> codes[i] == 0
    ensures |m.order| <= 256 * 64 + 64 * 64
  {
    m := new AddrMan(env, key);
    codes := [];
    ghost var positive := forall i :: 0 <= i < |events| ==> Positive(events[i]);
    for n := 0 to |events|
      invariant fresh(m) && m.Consistent() && |codes| == n
      invariant positive ==> TimesOk(m.infos) && forall i :: 0 <= i < n ==> codes[i] == 0
    {
      var code;
      m, code := Live(m, events[n]);
      codes := codes + [code];
    }
    Bounded(m.env, m.Now());
  }
}
