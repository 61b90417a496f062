/**
 Exactly when a key is in the cache, after any history of calls, told from the history alone.
 */
module Residence {
  import opened Recency
  import opened CacheRuns
  import opened CacheAnswers

  /** The latest write of k is there and unexpired. */
  predicate Live(h: seq<Call>, k: string, now: int) {
    LatestWrite(h, k).Some? && !Expired(LatestWrite(h, k).value, now)
  }

  /** The other keys set after the last `set` of k that were neither deleted nor swept since. */
  function AheadOf(h: seq<Call>, k: string): set<string> {
    if h == [] then {}
    else
      var before := AheadOf(Init(h), k);
      match Last(h).op
      case Set(k', _, _) => if k' == k then {} else {k'} + before
      case Del(k') => before - {k'}
      case Cleanup => set x | x in before && Live(Init(h), x, Last(h).now)
      case _ => before
  }

  /**
   k was set; since then it was not deleted, no cleanup came after its expiry, and after each `set` of
   another key fewer keys than the capacity stood ahead of it.
   */
  predicate Stays(cap: nat, h: seq<Call>, k: string) {
    if h == [] then false
    else
      match Last(h).op
      case Set(k', _, _) => if k' == k then cap > 0 else Stays(cap, Init(h), k) && |AheadOf(h, k)| < cap
      case Del(k') => k' != k && Stays(cap, Init(h), k)
      case Cleanup => Stays(cap, Init(h), k) && Live(Init(h), k, Last(h).now)
      case _ => Stays(cap, Init(h), k)
  }

  /** e is what the list holds under k, and ahead stand exactly the given keys. */
  ghost predicate HeldAs(order: seq<Entry>, e: Option<Entry>, k: string, ahead: set<string>) {
    e.Some? && e.value.key == k && e.value in order && Ahead(order, k) == ahead
  }

  ghost predicate Absent(order: seq<Entry>, k: string) {
    forall e :: e in order ==> e.key != k
  }

  lemma {:induction false} KeptAhead(order: seq<Entry>, p: Entry -> bool, e: Entry, f: Entry)
    requires Distinct(order) && e in order && p(e) && f in order && f.key in Ahead(order, e.key)
    ensures f.key in Ahead(Keep(order, p), e.key) <==> p(f)
  {
    HeadDiffers(order, e);
    KeepHead(order, p);
    if order[0] == f {
      AheadKeep(order[1..], p, e);
      AheadApart(order, e);
    } else {
      HeadDiffers(order, f);
      KeptAhead(order[1..], p, e, f);
    }
  }

  /** After a cleanup, those ahead are those ahead before whose entries had not expired. */
  lemma CleanedAhead(order: seq<Entry>, e: Entry, now: int, ahead: set<string>)
    requires Distinct(order) && e in order && !Expired(e, now)
    requires forall f :: f in order && f.key in Ahead(order, e.key) ==> (f.key in ahead <==> !Expired(f, now))
    requires ahead <= Ahead(order, e.key)
    ensures Ahead(Cleaned(order, now), e.key) == ahead
  {
    var p := Unexpired(now);
    AheadKeep(order, p, e);
    AheadMembers(order, e.key);
    forall x | x in Ahead(order, e.key) ensures x in Ahead(Keep(order, p), e.key) <==> x in ahead {
      var f :| f in order && f.key == x;
      KeptAhead(order, p, e, f);
    }
  }

  lemma StaysAfterSet(cap: nat, order: seq<Entry>, w: Entry, k: string, e: Option<Entry>, ahead: set<string>)
    requires Distinct(order) && w.key != k && HeldAs(order, e, k, ahead)
    ensures if |{w.key} + ahead| < cap then HeldAs(Put(cap, order, w), e, k, {w.key} + ahead)
            else Absent(Put(cap, order, w), k)
  {
    PutAhead(cap, order, w, e.value);
    forall f | f in Put(cap, order, w) && f.key == k ensures f == e.value {
      PutMembers(cap, order, w, f);
      FindIff(order, f);
      FindIff(order, e.value);
    }
  }

  lemma AbsentAfterSet(cap: nat, order: seq<Entry>, w: Entry, k: string)
    requires Distinct(order) && w.key != k && Absent(order, k)
    ensures Absent(Put(cap, order, w), k)
  {
    forall f | f in Put(cap, order, w) ensures f.key != k {
      PutMembers(cap, order, w, f);
    }
  }

  lemma StaysAfterCleanup(cap: nat, h: seq<Call>, k: string, now: int)
    requires HeldAs(Run(cap, h), LatestWrite(h, k), k, AheadOf(h, k))
    ensures var order := Cleaned(Run(cap, h), now);
            if Live(h, k, now)
            then HeldAs(order, LatestWrite(h, k), k, set x | x in AheadOf(h, k) && Live(h, x, now))
            else Absent(order, k)
  {
    var order, e := Run(cap, h), LatestWrite(h, k).value;
    RunBounded(cap, h);
    HoldsLatestWrites(cap, h);
    KeepMembers(order, Unexpired(now));
    if Live(h, k, now) {
      CleanedAhead(order, e, now, set x | x in AheadOf(h, k) && Live(h, x, now));
    }
  }

  /** After every history the cache holds a key if and only if it stays, and then it holds its latest write. */
  lemma {:induction false} HeldIffStays(cap: nat, h: seq<Call>, k: string)
    ensures if Stays(cap, h, k) then HeldAs(Run(cap, h), LatestWrite(h, k), k, AheadOf(h, k))
            else Absent(Run(cap, h), k)
  {
    if h != [] {
      var before, c := Run(cap, Init(h)), Last(h);
      RunBounded(cap, Init(h));
      HeldIffStays(cap, Init(h), k);
      match c.op
      case Set(k', _, _) =>
        var w := Write(c.now, c.op);
        if k' == k {
          assert cap > 0 ==> Put(cap, before, w)[0] == w;
        } else if Stays(cap, Init(h), k) {
          StaysAfterSet(cap, before, w, k, LatestWrite(Init(h), k), AheadOf(Init(h), k));
        } else {
          AbsentAfterSet(cap, before, w, k);
        }
      case Del(k') =>
        KeepMembers(before, NotKey(k'));
        if k' != k && Stays(cap, Init(h), k) {
          AheadWithout(before, k', LatestWrite(Init(h), k).value);
        }
      case Cleanup =>
        KeepMembers(before, Unexpired(c.now));
        if Stays(cap, Init(h), k) {
          StaysAfterCleanup(cap, Init(h), k, c.now);
        }
      case _ =>
    }
  }

  /** What the list finds under a key: its latest write if it stays, and otherwise nothing. */
  lemma FindIffStays(cap: nat, h: seq<Call>, k: string)
    ensures Find(Run(cap, h), k) == if Stays(cap, h, k) then LatestWrite(h, k) else None
  {
    HeldIffStays(cap, h, k);
    RunBounded(cap, h);
    FindIff(Run(cap, h), if Stays(cap, h, k) then LatestWrite(h, k).value else Entry(k, "", 0));
  }

  /**
   A key answers, with the value of its latest write, if and only if it stays and that write has not
   expired; at every capacity, clock and time to live, whatever reads, dels and cleanups came between.
   */
  lemma AnswerIff(cap: nat, h: seq<Call>, k: string, now: int)
    ensures Lookup(Run(cap, h), k, now) ==
            if Stays(cap, h, k) && Live(h, k, now) then Some(LatestWrite(h, k).value.value) else None
  {
    FindIffStays(cap, h, k);
    HeldIffStays(cap, h, k);
  }

  // ---------- replies told from the history ----------

  /** What a call is told: a `get` the latest value or a miss, an `exists` whether there is one. */
  function ToldReply(cap: nat, h: seq<Call>, c: Call): seq<Reply> {
    match c.op
    case Get(k) =>
      if Stays(cap, h, k) && Live(h, k, c.now) && LatestWrite(h, k).Some? then [Hit(LatestWrite(h, k).value.value)]
      else [Miss]
    case Exists(k) => if Stays(cap, h, k) && Live(h, k, c.now) then [Yes] else [No]
    case _ => []
  }

  function ToldReplies(cap: nat, h: seq<Call>): seq<Reply> {
    if h == [] then [] else ToldReplies(cap, Init(h)) + ToldReply(cap, Init(h), Last(h))
  }

  /** Every reply of a run is told by the history before its call. */
  lemma {:induction false} RepliesAreTold(cap: nat, h: seq<Call>)
    ensures Replies(cap, h) == ToldReplies(cap, h)
  {
    if h != [] {
      RepliesAreTold(cap, Init(h));
      var c := Last(h);
      if c.op.Get? || c.op.Exists? {
        AnswerIff(cap, Init(h), c.op.key, c.now);
      }
    }
  }
}
