/**
 What each command does to a running store, in answers and in bytes of the log.
 */
module Commands {
  import opened Recency
  import opened WalLog
  import opened Recovery
  import opened StoreRuns

  /** Up, with nothing pending and a clock that has not passed `now`: a command can be served. */
  ghost predicate Ready(cfg: Config, steps: seq<Step>, now: int) {
    && Legal(cfg, steps)
    && After(cfg, steps).up && After(cfg, steps).pending == None && After(cfg, steps).clock <= now
  }

  /** A command that writes r: the list at its update and the log at its append. */
  lemma WriteSteps(cfg: Config, steps: seq<Step>, cmd: string, k: string, v: string, now: int, r: Record)
    requires Ready(cfg, steps, now) && Logs(cmd, k, v) == Some(r)
    ensures var updated := steps + [Update(cmd, k, v, now)];
      && Legal(cfg, updated) && Legal(cfg, updated + [AppendLog])
      && After(cfg, updated).order == ApplyRecord(cfg.cap, After(cfg, steps).order, r, now)
      && After(cfg, updated).log == After(cfg, steps).log
      && After(cfg, updated + [AppendLog]).order == After(cfg, updated).order
      && After(cfg, updated + [AppendLog]).log == After(cfg, steps).log + Encode(r)
  {
    Extend(cfg, steps, Update(cmd, k, v, now));
    Extend(cfg, steps + [Update(cmd, k, v, now)], AppendLog);
  }

  /**
   DEL: from the cache update on the key has no answer at any time, every other key answers as before, and
   the append adds the deletion of the key to the log.
   */
  lemma DelForgets(cfg: Config, steps: seq<Step>, k: string, v: string, now: int, x: string, t: int)
    requires Ready(cfg, steps, now)
    ensures var deleted := steps + [Update("DEL", k, v, now)];
      && Legal(cfg, deleted) && Legal(cfg, deleted + [AppendLog])
      && Lookup(After(cfg, deleted).order, k, t) == None
      && (x != k ==> Lookup(After(cfg, deleted).order, x, t) == Lookup(After(cfg, steps).order, x, t))
      && After(cfg, deleted).log == After(cfg, steps).log
      && After(cfg, deleted + [AppendLog]).order == After(cfg, deleted).order
      && After(cfg, deleted + [AppendLog]).log == After(cfg, steps).log + ("DEL " + k + "\n")
  {
    var r := Record("DEL", k, "");
    WriteSteps(cfg, steps, "DEL", k, v, now, r);
    AppliedDel(cfg.cap, After(cfg, steps).order, k, now, k, t);
    AppliedDel(cfg.cap, After(cfg, steps).order, k, now, x, t);
    EncodedDel(k);
  }

  /**
   SET, at a positive capacity: from the cache update on the key answers with the value up to and including
   24 hours later and not after that, every other key answers as before or, over capacity, not at all, and
   the append adds the write to the log.
   */
  lemma SetAnswers(cfg: Config, steps: seq<Step>, k: string, v: string, now: int, x: string, t: int)
    requires Ready(cfg, steps, now) && cfg.cap > 0
    ensures var written, before := steps + [Update("SET", k, v, now)], After(cfg, steps);
      && Legal(cfg, written) && Legal(cfg, written + [AppendLog])
      && Lookup(After(cfg, written).order, k, t) == (if t <= now + 86_400_000_000_000 then Some(v) else None)
      && (x != k ==>
          || Lookup(After(cfg, written).order, x, t) == Lookup(before.order, x, t)
          || (|before.order| >= cfg.cap && Lookup(After(cfg, written).order, x, t) == None))
      && After(cfg, written).log == before.log
      && After(cfg, written + [AppendLog]).order == After(cfg, written).order
      && After(cfg, written + [AppendLog]).log ==
         before.log + ("SET " + k + (if v == "" then "" else " " + v) + "\n")
  {
    WriteSteps(cfg, steps, "SET", k, v, now, Record("SET", k, v));
    AppliedSet(cfg.cap, After(cfg, steps).order, k, v, now, x, t);
    EncodedSet(k, v);
  }

  /** Any other command word moves the clock and nothing else, and leaves nothing to append. */
  lemma OthersChangeNothing(cfg: Config, steps: seq<Step>, cmd: string, k: string, v: string, now: int)
    requires Ready(cfg, steps, now) && cmd != "SET" && cmd != "DEL"
    ensures Legal(cfg, steps + [Update(cmd, k, v, now)])
    ensures After(cfg, steps + [Update(cmd, k, v, now)]) == After(cfg, steps).(clock := now)
    ensures !Enabled(cfg, After(cfg, steps + [Update(cmd, k, v, now)]), AppendLog)
  {
    Extend(cfg, steps, Update(cmd, k, v, now));
  }
}
