/**
  Log rolling: every message is preceded by a call of TrimLog, which looks at the
  size of the log on every tenth call and moves a log that is too large to the
  backup file. The files are modelled by their contents.
 */
module LogRolling {
  import opened Bytes

  const UINT_MAX: nat := 0xFFFF_FFFF
  const MAX_TRIM: nat := 1000

  /** The fixed part of a run: `g_maxLogSize`, the level, whether a backup is named. */
  datatype Config = Config(maxLogSize: nat, debug: bool, hasBackup: bool)

  /** Five times the size when debugging, saturated at 32 bits. */
  function Limit(c: Config): (limit: nat)
    requires c.maxLogSize <= UINT_MAX
    ensures c.debug ==> limit == if 5 * c.maxLogSize < UINT_MAX then 5 * c.maxLogSize else UINT_MAX
    ensures !c.debug ==> limit == c.maxLogSize
  {
    if c.debug then (if c.maxLogSize < UINT_MAX / 5 then c.maxLogSize * 5 else UINT_MAX) else c.maxLogSize
  }

  datatype State = State(count: nat, log: bytes, backup: bytes)

  /** A message, and what the system would do then: whether `ftell` tells the size of
      the log, and whether the log can be renamed. */
  datatype Event = Event(message: bytes, told: bool, renamed: bool)

  function NextCount(count: nat): nat {
    if count < MAX_TRIM then count + 1 else 1
  }

  predicate Checks(count: nat) {
    count % 10 == 0
  }

  /** A log whose size cannot be told is rolled like one that is too large. */
  function Trim(c: Config, limit: nat, s: State, told: bool, renamed: bool): State {
    var count := NextCount(s.count);
    if !Checks(count) || (told && |s.log| < limit) then s.(count := count)
    else State(count, [], if c.hasBackup && renamed then s.log else s.backup)
  }

  function Step(c: Config, limit: nat, s: State, e: Event): State {
    var t := Trim(c, limit, s, e.told, e.renamed);
    t.(log := t.log + e.message)
  }

  /** The log as the source keeps it. */
  class Log {
    const config: Config
    var trimLogCount: nat
    var log: bytes
    var backup: bytes

    ghost predicate Valid()
      reads this
    {
      config.maxLogSize <= UINT_MAX && trimLogCount <= MAX_TRIM
    }

    ghost function Now(): State
      reads this
    {
      State(trimLogCount, log, backup)
    }

    constructor (config: Config, log: bytes, backup: bytes)
      requires config.maxLogSize <= UINT_MAX
      ensures Valid() && this.config == config && Now() == State(0, log, backup)
    {
      this.config, this.trimLogCount, this.log, this.backup := config, 0, log, backup;
    }

    /** `TrimLog`. */
    method TrimLog(told: bool, renamed: bool)
      requires Valid()
      modifies this
      ensures Valid() && 1 <= trimLogCount
      ensures Now() == Trim(config, Limit(config), old(Now()), told, renamed)
    {
      var maxLogSize := Limit(config);
      trimLogCount := if trimLogCount < MAX_TRIM then trimLogCount + 1 else 1;
      if trimLogCount % 10 == 0 {
        var fileSize := if told then |log| else -1;
        if fileSize >= maxLogSize || fileSize == -1 {
          if config.hasBackup && renamed {
            backup := log;
          }
          log := [];
        }
      }
    }

    /** `__LOG_TO_FILE__`. */
    method LogToFile(e: Event)
      requires Valid()
      modifies this
      ensures Valid() && 1 <= trimLogCount
      ensures Now() == Step(config, Limit(config), old(Now()), e)
    {
      TrimLog(e.told, e.renamed);
      log := log + e.message;
    }
  }

  // ----- Whole runs

  function Run(c: Config, limit: nat, s: State, es: seq<Event>): State {
    if |es| == 0 then s else Step(c, limit, Run(c, limit, s, es[..|es| - 1]), es[|es| - 1])
  }

  function Logged(es: seq<Event>): bytes {
    if |es| == 0 then [] else Logged(es[..|es| - 1]) + es[|es| - 1].message
  }

  predicate Suffix(s: bytes, t: bytes) {
    |s| <= |t| && t[|t| - |s|..] == s
  }

  /** The counter after each number of calls; it depends on nothing else. */
  function CountAfter(count: nat, calls: nat): nat {
    if calls == 0 then count else NextCount(CountAfter(count, calls - 1))
  }

  lemma {:induction false} RunCount(c: Config, limit: nat, s: State, es: seq<Event>)
    ensures Run(c, limit, s, es).count == CountAfter(s.count, |es|)
  {
    if |es| > 0 {
      RunCount(c, limit, s, es[..|es| - 1]);
    }
  }

  /** The counter stays in 1..1000 after the first call, and its last digit counts
      the calls even where it starts over. */
  lemma {:induction false} CounterRange(count: nat, calls: nat)
    requires count <= MAX_TRIM
    ensures CountAfter(count, calls) <= 1000
    ensures calls > 0 ==> 1 <= CountAfter(count, calls)
    ensures CountAfter(count, calls) % 10 == (count + calls) % 10
  {
    if calls > 0 {
      CounterRange(count, calls - 1);
      NextDigit(CountAfter(count, calls - 1), count + calls - 1);
    }
  }

  lemma NextDigit(a: nat, b: nat)
    requires a <= MAX_TRIM && a % 10 == b % 10
    ensures NextCount(a) % 10 == (b + 1) % 10
  {
    assert (b + 1) % 10 == if b % 10 == 9 then 0 else b % 10 + 1;
  }

  /** Of any ten consecutive calls exactly one checks the size. */
  lemma OneCheckInTen(count: nat, calls: nat) returns (i: nat)
    requires count <= MAX_TRIM
    ensures calls < i <= calls + 10
    ensures forall j | calls < j <= calls + 10 :: Checks(CountAfter(count, j)) <==> j == i
  {
    i := calls + 10 - (count + calls) % 10;
    forall j | calls < j <= calls + 10 ensures Checks(CountAfter(count, j)) <==> j == i {
      CounterRange(count, j);
    }
  }

  predicate MessagesWithin(es: seq<Event>, longest: nat) {
    forall i | 0 <= i < |es| :: |es[i].message| <= longest
  }

  /** The room a log of this counter may have used above the limit. */
  function Room(count: nat, longest: nat): nat {
    (count % 10 + 1) * longest
  }

  lemma RoomGrows(count: nat, longest: nat)
    requires count <= MAX_TRIM
    ensures if Checks(NextCount(count)) then Room(NextCount(count), longest) == longest
            else Room(NextCount(count), longest) == Room(count, longest) + longest
  {
    Distribute(count % 10 + 1, longest);
  }

  /** Between two checks the log grows by at most ten messages. */
  lemma {:induction false} SizeSinceCheck(c: Config, limit: nat, s: State, es: seq<Event>, longest: nat)
    requires s.count <= MAX_TRIM && |s.log| < limit && MessagesWithin(es, longest)
    ensures var r := Run(c, limit, s, es);
      r.count <= MAX_TRIM && |r.log| < limit + Room(r.count, longest)
  {
    hide Room;
    if |es| > 0 {
      var init := es[..|es| - 1];
      SizeSinceCheck(c, limit, s, init, longest);
      RoomGrows(Run(c, limit, s, init).count, longest);
    }
  }

  lemma Distribute(k: nat, n: nat)
    ensures (k + 1) * n == k * n + n
  {
  }

  /** The log never reaches the limit plus ten of the longest messages. */
  lemma SizeBound(c: Config, limit: nat, s: State, es: seq<Event>, longest: nat)
    requires s.count <= MAX_TRIM && |s.log| < limit && MessagesWithin(es, longest)
    ensures |Run(c, limit, s, es).log| < limit + 10 * longest
  {
    SizeSinceCheck(c, limit, s, es, longest);
    var r := Run(c, limit, s, es);
    Smaller(r.count % 10 + 1, 10, longest);
  }

  lemma Smaller(a: nat, b: nat, n: nat)
    requires a <= b
    ensures a * n <= b * n
  {
  }

  /** No smaller bound holds: a log one byte short of the limit when it is checked
      grows by ten messages before the next check. */
  lemma {:induction false} SizeBoundIsTight(c: Config, limit: nat, s: State, es: seq<Event>, longest: nat)
    requires limit > 0 && s.count % 10 == 9 && s.count < MAX_TRIM && |s.log| == limit - 1
    requires |es| <= 10 && AllTold(es) && forall i | 0 <= i < |es| :: |es[i].message| == longest
    ensures var r := Run(c, limit, s, es);
      |r.log| == limit - 1 + |es| * longest && r.count == CountAfter(s.count, |es|)
  {
    if |es| > 0 {
      var init := es[..|es| - 1];
      SizeBoundIsTight(c, limit, s, init, longest);
      CounterRange(s.count, |init|);
      CounterRange(s.count, |es|);
      Distribute(|init|, longest);
      assert |init| == 0 || !Checks(CountAfter(s.count, |es|));
    }
  }

  /** What the log holds is always the latest part of what was written, whether or
      not renaming works. */
  lemma {:induction false} LogIsSuffix(c: Config, limit: nat, s: State, es: seq<Event>)
    ensures Suffix(Run(c, limit, s, es).log, s.log + Logged(es))
  {
    if |es| == 0 {
      assert s.log + [] == s.log;
    } else {
      var init, e := es[..|es| - 1], es[|es| - 1];
      LogIsSuffix(c, limit, s, init);
      Assoc(s.log, Logged(init), e.message);
      var r := Run(c, limit, s, init);
      var t := Trim(c, limit, r, e.told, e.renamed);
      assert Suffix(t.log, s.log + Logged(init));
      SuffixGrows(t.log, s.log + Logged(init), e.message);
    }
  }

  lemma SuffixGrows(s: bytes, t: bytes, m: bytes)
    requires Suffix(s, t)
    ensures Suffix(s + m, t + m)
  {
    var k := |t| - |s|;
    assert (t + m)[k..] == t[k..] + m;
  }

  predicate AllRenamed(es: seq<Event>) {
    forall i | 0 <= i < |es| :: es[i].renamed
  }

  predicate AllTold(es: seq<Event>) {
    forall i | 0 <= i < |es| :: es[i].told
  }

  /** Retention: with a backup and renames that succeed, the backup followed by the
      log is the end of everything written; where sizes can be told it is all of it,
      or at least as many bytes as the limit says. */
  lemma {:induction false} Retention(c: Config, limit: nat, s: State, es: seq<Event>)
    requires c.hasBackup && AllRenamed(es)
    ensures var r := Run(c, limit, s, es);
      var all := s.backup + s.log + Logged(es);
      && Suffix(r.backup + r.log, all)
      && (AllTold(es) ==> r.backup + r.log == all || |r.backup| >= limit)
  {
    if |es| == 0 {
      assert s.backup + s.log + [] == s.backup + s.log;
    } else {
      var init, e := es[..|es| - 1], es[|es| - 1];
      Retention(c, limit, s, init);
      var r, all := Run(c, limit, s, init), s.backup + s.log + Logged(init);
      var t := Trim(c, limit, r, e.told, e.renamed);
      Assoc(s.backup + s.log, Logged(init), e.message);
      Assoc(t.backup, t.log, e.message);
      TrimKeeps(c, limit, r, e.told, all);
      SuffixGrows(t.backup + t.log, all, e.message);
    }
  }

  lemma TrimKeeps(c: Config, limit: nat, r: State, told: bool, all: bytes)
    requires c.hasBackup && Suffix(r.backup + r.log, all)
    ensures var t := Trim(c, limit, r, told, true);
      && Suffix(t.backup + t.log, all)
      && (told ==> t.backup + t.log == r.backup + r.log || |t.backup| >= limit)
  {
    var t := Trim(c, limit, r, told, true);
    if t.log != r.log {
      assert t.backup + t.log == r.log;
      var k := |all| - |r.backup + r.log|;
      assert all[k..][|r.backup|..] == r.log;
    }
  }
}
