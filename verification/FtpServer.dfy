/**
 The connection accounting of qftp_server/src/main.c: the number of children and the count per
 address, kept in two hash tables as children come and go.
 */
module FtpServer {
  import opened HashTable

  const WIDTH: nat := 0x1_0000_0000

  /** `s_ip_count_hash`, `s_pid_ip_hash` and the `unsigned int` `s_children`. */
  datatype State = State(counts: map<nat, nat>, pids: map<nat, nat>, children: nat)

  const NONE := State(map[], map[], 0)

  // ---------- Operations on the tables ----------

  /** `handle_ip_count`. */
  function CountUp(counts: map<nat, nat>, ip: nat): map<nat, nat> {
    counts[ip := if ip in counts then counts[ip] + 1 else 1]
  }

  /** `drop_ip_count`. */
  function CountDown(counts: map<nat, nat>, ip: nat): map<nat, nat> {
    if ip !in counts || counts[ip] == 0 then counts
    else if counts[ip] == 1 then counts - {ip}
    else counts[ip := counts[ip] - 1]
  }

  /** One accepted connection whose child is `pid`. */
  function Accepted(s: State, ip: nat, pid: nat): State {
    State(CountUp(s.counts, ip), if pid in s.pids then s.pids else s.pids[pid := ip], (s.children + 1) % WIDTH)
  }

  /** One child found dead by `handle_sigchld`. */
  function Reaped(s: State, pid: nat): State {
    var children := (s.children + WIDTH - 1) % WIDTH;
    if pid !in s.pids then s.(children := children)
    else State(CountDown(s.counts, s.pids[pid]), s.pids - {pid}, children)
  }

  // ---------- What the counts mean ----------

  /** The live children recorded with an address. */
  function Live(pids: map<nat, nat>, ip: nat): set<nat> {
    set p | p in pids && pids[p] == ip
  }

  /** The counts are the numbers of live children, absent when zero, and `s_children` counts them all. */
  ghost predicate Inv(s: State) {
    Counted(s.counts, s.pids) && s.children == |s.pids| % WIDTH
  }

  ghost predicate Counted(counts: map<nat, nat>, pids: map<nat, nat>) {
    forall ip :: CountedAt(counts, pids, ip)
  }

  ghost predicate CountedAt(counts: map<nat, nat>, pids: map<nat, nat>, ip: nat) {
    (ip in counts <==> Live(pids, ip) != {}) && (ip in counts ==> counts[ip] == |Live(pids, ip)|)
  }

  ghost function Total(counts: map<nat, nat>): nat
    decreases |counts|
  {
    if |counts| == 0 then 0
    else
      var ip :| ip in counts;
      counts[ip] + Total(counts - {ip})
  }

  lemma LiveIsCounted(counts: map<nat, nat>, pids: map<nat, nat>, p: nat)
    requires Counted(counts, pids) && p in pids
    ensures pids[p] in counts
  {
    assert CountedAt(counts, pids, pids[p]);
    assert p in Live(pids, pids[p]);
  }

  /** The counts add up to the size of the pid table. */
  lemma {:induction false} TotalIsPids(counts: map<nat, nat>, pids: map<nat, nat>)
    requires Counted(counts, pids)
    ensures Total(counts) == |pids|
    decreases |counts|
  {
    if |counts| == 0 {
      forall p | p in pids ensures pids[p] in counts { LiveIsCounted(counts, pids, p); }
      assert pids.Keys == {};
    } else {
      var ip :| ip in counts && Total(counts) == counts[ip] + Total(counts - {ip});
      WithoutAddress(counts, pids, ip);
      TotalIsPids(counts - {ip}, pids - Live(pids, ip));
    }
  }

  lemma WithoutAddress(counts: map<nat, nat>, pids: map<nat, nat>, ip: nat)
    requires Counted(counts, pids) && ip in counts
    ensures Counted(counts - {ip}, pids - Live(pids, ip))
    ensures |pids| == counts[ip] + |pids - Live(pids, ip)|
  {
    var gone, rest := Live(pids, ip), pids - Live(pids, ip);
    forall a ensures CountedAt(counts - {ip}, rest, a) {
      assert CountedAt(counts, pids, a);
      assert Live(rest, a) == if a == ip then {} else Live(pids, a);
    }
    assert CountedAt(counts, pids, ip);
    assert pids.Keys == gone + rest.Keys && gone !! rest.Keys;
    assert |pids.Keys| == |gone| + |rest.Keys|;
  }

  // ---------- Single steps ----------

  lemma LiveAfterAdd(pids: map<nat, nat>, pid: nat, ip: nat, a: nat)
    requires pid !in pids
    ensures Live(pids[pid := ip], a) == if a == ip then Live(pids, a) + {pid} else Live(pids, a)
  {
  }

  lemma LiveAfterRemove(pids: map<nat, nat>, pid: nat, a: nat)
    requires pid in pids
    ensures Live(pids - {pid}, a) == if a == pids[pid] then Live(pids, a) - {pid} else Live(pids, a)
  {
  }

  /** Accepting a connection keeps the accounts exactly when the child's pid is not in the table yet. */
  lemma AcceptKeepsInv(s: State, ip: nat, pid: nat)
    requires Inv(s)
    ensures Inv(Accepted(s, ip, pid)) <==> pid !in s.pids
  {
    hide CountUp, Counted;
    IncWraps(|s.pids|);
    if pid !in s.pids {
      CountUpKeeps(s.counts, s.pids, ip, pid);
      AddOne(s.pids, pid, ip);
    }
  }

  lemma AddOne(m: map<nat, nat>, k: nat, v: nat)
    requires k !in m
    ensures |m[k := v]| == |m| + 1
  {
    assert m[k := v].Keys == m.Keys + {k};
  }

  lemma IncWraps(n: nat)
    ensures (n % WIDTH + 1) % WIDTH == (n + 1) % WIDTH != n % WIDTH
  {
  }

  lemma CountUpKeeps(counts: map<nat, nat>, pids: map<nat, nat>, ip: nat, pid: nat)
    requires Counted(counts, pids) && pid !in pids
    ensures Counted(CountUp(counts, ip), pids[pid := ip])
  {
    var up, more := CountUp(counts, ip), pids[pid := ip];
    forall a ensures CountedAt(up, more, a) {
      hide Live;
      assert CountedAt(counts, pids, a);
      LiveAfterAdd(pids, pid, ip, a);
      if a == ip { LiveGrows(pids, pid, ip); }
    }
  }

  lemma LiveGrows(pids: map<nat, nat>, pid: nat, ip: nat)
    requires pid !in pids
    ensures |Live(pids, ip) + {pid}| == |Live(pids, ip)| + 1
  {
  }

  /** Reaping a child keeps the accounts exactly when it was recorded. */
  lemma ReapKeepsInv(s: State, pid: nat)
    requires Inv(s)
    ensures Inv(Reaped(s, pid)) <==> pid in s.pids
  {
    hide CountDown, Counted;
    DecWraps(|s.pids|);
    if pid in s.pids {
      CountDownKeeps(s.counts, s.pids, pid);
      RemoveOne(s.pids, pid);
    }
  }

  lemma DecWraps(n: nat)
    ensures (n % WIDTH + WIDTH - 1) % WIDTH != n % WIDTH
    ensures n > 0 ==> (n % WIDTH + WIDTH - 1) % WIDTH == (n - 1) % WIDTH
  {
  }

  lemma RemoveOne(m: map<nat, nat>, k: nat)
    requires k in m
    ensures |m - {k}| == |m| - 1
  {
    assert (m - {k}).Keys == m.Keys - {k} && |m.Keys - {k}| == |m.Keys| - 1;
  }

  lemma CountDownKeeps(counts: map<nat, nat>, pids: map<nat, nat>, pid: nat)
    requires Counted(counts, pids) && pid in pids
    ensures Counted(CountDown(counts, pids[pid]), pids - {pid})
  {
    var ip := pids[pid];
    forall a ensures CountedAt(CountDown(counts, ip), pids - {pid}, a) {
      hide CountDown, Live;
      assert CountedAt(counts, pids, a);
      LiveAfterRemove(pids, pid, a);
      CountDownAt(counts, ip, a);
      if a == ip { LiveShrinks(pids, pid); }
    }
  }

  lemma CountDownAt(counts: map<nat, nat>, ip: nat, a: nat)
    ensures var down := CountDown(counts, ip);
            if a == ip && ip in counts && counts[ip] > 0
            then (a in down <==> counts[ip] > 1) && (a in down ==> down[a] == counts[ip] - 1)
            else (a in down <==> a in counts) && (a in down ==> down[a] == counts[a])
  {
  }

  lemma LiveShrinks(pids: map<nat, nat>, pid: nat)
    requires pid in pids
    ensures |Live(pids, pids[pid])| == |Live(pids, pids[pid]) - {pid}| + 1
  {
    assert pid in Live(pids, pids[pid]);
  }

  /** A child that dies unrecorded is counted off but leaves its address counted. */
  lemma UnrecordedChild(s: State, ip: nat, pid: nat)
    requires Inv(s) && pid !in s.pids
    ensures var t := Reaped(s, pid); t.counts == s.counts && t.pids == s.pids && t.children != s.children
  {
  }

  // ---------- Runs ----------

  /** A connection accepted, or one SIGCHLD that finds several children dead. */
  datatype Event = Connect(ip: nat, pid: nat) | Exit(pids: seq<nat>)

  function ReapedAll(s: State, pids: seq<nat>): State
    decreases |pids|
  {
    if |pids| == 0 then s else ReapedAll(Reaped(s, pids[0]), pids[1..])
  }

  function Apply(s: State, e: Event): State {
    match e
    case Connect(ip, pid) => Accepted(s, ip, pid)
    case Exit(pids) => ReapedAll(s, pids)
  }

  /** New children have fresh pids, and only live children exit, once each. */
  predicate Sensible(s: State, e: Event) {
    match e
    case Connect(_, pid) => pid !in s.pids
    case Exit(pids) => (forall i | 0 <= i < |pids| :: pids[i] in s.pids) &&
                       (forall i, j | 0 <= i < j < |pids| :: pids[i] != pids[j])
  }

  lemma {:induction false} ReapAllKeepsInv(s: State, pids: seq<nat>)
    requires Inv(s) && Sensible(s, Exit(pids))
    ensures Inv(ReapedAll(s, pids))
    decreases |pids|
  {
    hide Inv, CountDown;
    if |pids| > 0 {
      ReapKeepsInv(s, pids[0]);
      ReapAllKeepsInv(Reaped(s, pids[0]), pids[1..]);
    }
  }

  predicate SensibleRun(s: State, events: seq<Event>)
    decreases |events|
  {
    |events| == 0 || (Sensible(s, events[0]) && SensibleRun(Apply(s, events[0]), events[1..]))
  }

  function Run(s: State, events: seq<Event>): State
    decreases |events|
  {
    if |events| == 0 then s else Run(Apply(s, events[0]), events[1..])
  }

  /** After every run the accounts are right. */
  lemma {:induction false} RunKeepsInv(s: State, events: seq<Event>)
    requires Inv(s) && SensibleRun(s, events)
    ensures Inv(Run(s, events)) && Total(Run(s, events).counts) == |Run(s, events).pids|
    decreases |events|
  {
    if |events| == 0 {
      TotalIsPids(s.counts, s.pids);
    } else {
      match events[0] {
        case Connect(ip, pid) => AcceptKeepsInv(s, ip, pid);
        case Exit(pids) => ReapAllKeepsInv(s, pids);
      }
      RunKeepsInv(Apply(s, events[0]), events[1..]);
    }
  }

  // ---------- The server's variables ----------

  class Server {
    var children: nat
    const ipCount: Hash
    const pidIp: Hash

    ghost predicate Valid()
      reads this, ipCount, ipCount.repr, pidIp, pidIp.repr
    {
      ipCount.Valid() && pidIp.Valid() && ipCount.repr !! pidIp.repr &&
      this !in ipCount.repr && this !in pidIp.repr && children < WIDTH
    }

    ghost function Abs(): State
      reads this, ipCount, pidIp
    {
      State(ipCount.contents, pidIp.contents, children)
    }

    constructor ()
      ensures Valid() && Abs() == NONE && Inv(Abs())
    {
      children := 0;
      ipCount := new Hash(256);
      pidIp := new Hash(256);
    }

    /** One turn of the accept loop, with the pid fork returned; the results are the session's limits. */
    method Accept(ip: nat, pid: nat) returns (numClients: nat, numThisIp: nat)
      requires Valid()
      modifies this, ipCount.repr, pidIp.repr
      ensures Valid() && Abs() == Accepted(old(Abs()), ip, pid)
      ensures fresh(ipCount.repr - old(ipCount.repr)) && fresh(pidIp.repr - old(pidIp.repr))
      ensures numClients == children && numThisIp == Abs().counts[ip]
      ensures old(Inv(Abs())) ==> numThisIp == |Live(old(Abs().pids), ip)| + 1
    {
      if Inv(Abs()) { assert CountedAt(Abs().counts, Abs().pids, ip); }
      children := (children + 1) % WIDTH;
      numClients := children;
      numThisIp := HandleIpCount(ip);
      pidIp.Add(pid, ip);
    }

    /** `handle_ip_count`. */
    method HandleIpCount(ip: nat) returns (count: nat)
      requires ipCount.Valid()
      modifies ipCount.repr
      ensures ipCount.Valid() && fresh(ipCount.repr - old(ipCount.repr))
      ensures ipCount.contents == CountUp(old(ipCount.contents), ip) && count == ipCount.contents[ip]
    {
      var entry := ipCount.Lookup(ip);
      if entry == null {
        count := 1;
        ipCount.Add(ip, count);
      } else {
        count := entry.value + 1;
        ipCount.Store(entry, count);
      }
    }

    /** `drop_ip_count`. */
    method DropIpCount(ip: nat)
      requires ipCount.Valid()
      modifies ipCount.repr
      ensures ipCount.Valid() && ipCount.repr == old(ipCount.repr)
      ensures ipCount.contents == CountDown(old(ipCount.contents), ip)
    {
      hide Bucket, BucketOk;
      var entry := ipCount.Lookup(ip);
      if entry == null { return; }
      var count := entry.value;
      if count <= 0 { return; }
      count := count - 1;
      ipCount.Store(entry, count);
      if count == 0 {
        ipCount.Free(ip);
      }
    }

    /** `handle_sigchld`: waitpid yields these children one after the other. */
    method HandleSigchld(dead: seq<nat>)
      requires Valid()
      modifies this, ipCount.repr, pidIp.repr
      ensures Valid() && Abs() == ReapedAll(old(Abs()), dead)
      ensures ipCount.repr == old(ipCount.repr) && pidIp.repr == old(pidIp.repr)
    {
      var i := 0;
      while i < |dead|
        invariant i <= |dead| && Valid()
        invariant ipCount.repr == old(ipCount.repr) && pidIp.repr == old(pidIp.repr)
        invariant ReapedAll(Abs(), dead[i..]) == ReapedAll(old(Abs()), dead)
      {
        assert dead[i..][1..] == dead[i + 1..];
        ReapOne(dead[i]);
        i := i + 1;
      }
    }

    method ReapOne(pid: nat)
      requires Valid()
      modifies this, ipCount.repr, pidIp.repr
      ensures Valid() && Abs() == Reaped(old(Abs()), pid)
      ensures ipCount.repr == old(ipCount.repr) && pidIp.repr == old(pidIp.repr)
    {
      hide Bucket, BucketOk, CountDown;
      children := (children + WIDTH - 1) % WIDTH;
      var entry := pidIp.Lookup(pid);
      if entry == null { return; }
      DropIpCount(entry.value);
      pidIp.Free(pid);
    }
  }
}
