/**
 * Expiry and ageing of cached answers: when an answer may be stored and until
 * when, and what its TTLs are when it is served again. Times are unix
 * nanoseconds.
 */
module CacheTtl {
  import opened Octets
  import opened CacheBlob
  import opened RecordTypes

  datatype RR = RR(isOpt: bool, ttl: uint32, data: Bytes)

  datatype Msg = Msg(id: uint16, question: Bytes, rcode: nat, answer: seq<RR>, ns: seq<RR>, extra: seq<RR>)

  datatype Query = Query(id: uint16, question: Bytes, key: Key)

  function AllRecords(m: Msg): seq<RR>
  {
    m.answer + m.ns + m.extra
  }

  // ----- the lowest TTL -----

  function Lowest(rrs: seq<RR>): uint32
  {
    if rrs == [] then MAX_TTL
    else
      var low, rr := Lowest(rrs[..|rrs| - 1]), rrs[|rrs| - 1];
      if !rr.isOpt && rr.ttl < low then rr.ttl else low
  }

  /** A lower bound on every TTL that counts, and one of them unless it is the largest value there is. */
  lemma {:induction false} LowestIsLowest(rrs: seq<RR>)
    ensures forall rr :: rr in rrs && !rr.isOpt ==> Lowest(rrs) <= rr.ttl
    ensures Lowest(rrs) < MAX_TTL <==> exists rr :: rr in rrs && !rr.isOpt && rr.ttl < MAX_TTL
    ensures Lowest(rrs) < MAX_TTL ==> exists rr :: rr in rrs && !rr.isOpt && rr.ttl == Lowest(rrs)
  {
    if rrs == [] {
    } else {
      LowestIsLowest(rrs[..|rrs| - 1]);
      assert rrs == rrs[..|rrs| - 1] + [rrs[|rrs| - 1]];
    }
  }

  lemma LowestSnoc(rrs: seq<RR>, rr: RR)
    ensures Lowest(rrs + [rr]) == if !rr.isOpt && rr.ttl < Lowest(rrs) then rr.ttl else Lowest(rrs)
  {
    assert (rrs + [rr])[..|rrs|] == rrs;
  }

  /** minTTL: a TTL of the largest value is never found. */
  method MinTtl(m: Msg) returns (min: uint32, found: bool)
    ensures min == Lowest(AllRecords(m)) && (found <==> min < MAX_TTL)
  {
    hide Lowest;
    min, found := MAX_TTL, false;
    assert Lowest([]) == MAX_TTL by { LowestIsLowest([]); }
    var sections := [m.answer, m.ns, m.extra];
    ghost var prefixes := [[], m.answer, m.answer + m.ns, AllRecords(m)];
    for i := 0 to 3
      invariant min == Lowest(prefixes[i]) && (found <==> min < MAX_TTL)
    {
      min, found := MinOf(sections[i], min, found, prefixes[i]);
      assert prefixes[i + 1] == prefixes[i] + sections[i];
    }
  }

  /** The inner loop over one section. */
  method MinOf(rrs: seq<RR>, min0: uint32, found0: bool, ghost before: seq<RR>) returns (min: uint32, found: bool)
    requires min0 == Lowest(before) && (found0 <==> min0 < MAX_TTL)
    ensures min == Lowest(before + rrs) && (found <==> min < MAX_TTL)
  {
    hide Lowest;
    min, found := min0, found0;
    assert before + rrs[..0] == before;
    for j := 0 to |rrs|
      invariant min == Lowest(before + rrs[..j]) && (found <==> min < MAX_TTL)
    {
      LowestSnoc(before + rrs[..j], rrs[j]);
      assert before + rrs[..j + 1] == before + rrs[..j] + [rrs[j]];
      if rrs[j].isOpt {
        continue;
      }
      if rrs[j].ttl < min {
        min, found := rrs[j].ttl, true;
      }
    }
    assert rrs[..|rrs|] == rrs;
  }

  // ----- storing -----

  const NOERROR := 0
  const FORMERR := 1
  const SERVFAIL := 2
  const NXDOMAIN := 3
  const NOTIMP := 4
  const REFUSED := 5

  datatype Options = Options(negativeTtl: uint32, prefetchEligible: uint32, rcodeMaxTtl: map<nat, uint32>)

  /** A clock reading from which the longest expiry still is a 64-bit nanosecond count. */
  predicate ClockOk(now: int64)
  {
    0 < now && now + TWO_32 * SECOND < 0x8000_0000_0000_0000
  }

  /** For how many seconds an answer is kept, and whether it may be prefetched; none if it is not stored at all. */
  function Lifetime(opts: Options, m: Msg): Option<(uint32, bool)>
  {
    var low := Lowest(AllRecords(m));
    var base :=
      if m.rcode in {NOERROR, NXDOMAIN, REFUSED, NOTIMP, FORMERR} then
        Some(if low < MAX_TTL then (low, low > opts.prefetchEligible) else (opts.negativeTtl, false))
      else if m.rcode == SERVFAIL then Some((if opts.negativeTtl < 300 then opts.negativeTtl else 300, false))
      else None;
    if base.Some? && m.rcode in opts.rcodeMaxTtl && opts.rcodeMaxTtl[m.rcode] < base.value.0
    then Some((opts.rcodeMaxTtl[m.rcode], base.value.1))
    else base
  }

  function MetaFor(opts: Options, now: int64, m: Msg): Option<Meta>
    requires ClockOk(now)
  {
    match Lifetime(opts, m)
    case None => None
    case Some((seconds, prefetch)) => Some(Meta(now, now + seconds * SECOND, prefetch))
  }

  /** The expiry computed by storeInCache, step by step. */
  method ExpiryOf(opts: Options, now: int64, m: Msg) returns (meta: Option<Meta>)
    requires ClockOk(now)
    ensures meta == MetaFor(opts, now, m)
    ensures meta.Some? ==> now <= meta.value.expiry <= now + MAX_TTL * SECOND
  {
    var min, found := MinTtl(m);
    var expiry, prefetch := now, false;
    if m.rcode in {NOERROR, NXDOMAIN, REFUSED, NOTIMP, FORMERR} {
      if found {
        expiry := now + min * SECOND;
        prefetch := min > opts.prefetchEligible;
      } else {
        expiry := now + opts.negativeTtl * SECOND;
      }
    } else if m.rcode == SERVFAIL {
      if opts.negativeTtl < 300 {
        expiry := now + opts.negativeTtl * SECOND;
      } else {
        expiry := now + 300 * SECOND;
      }
    } else {
      return None;
    }
    if m.rcode in opts.rcodeMaxTtl {
      var limit := now + opts.rcodeMaxTtl[m.rcode] * SECOND;
      if expiry > limit {
        expiry := limit;
      }
    }
    return Some(Meta(now, expiry, prefetch));
  }

  // ----- serving -----

  /** Division that truncates toward zero. */
  function Quotient(a: int, b: nat): int
    requires b > 0
  {
    if a >= 0 then a / b else -(-a / b)
  }

  /** cacheAge, with its wrap-arounds: the difference is a 64-bit and the result a 32-bit number. */
  function CacheAge(now: int64, stored: int64): uint32
  {
    if now <= stored then 0
    else
      var wrapped := if now - stored < 0x8000_0000_0000_0000 then now - stored else now - stored - TWO_64;
      Quotient(wrapped, SECOND) % TWO_32
  }

  /** The age is right exactly when the record is younger than 2^32 seconds. */
  lemma AgeExact(now: int64, stored: int64)
    requires now > stored
    ensures CacheAge(now, stored) == (now - stored) / SECOND <==> now - stored < TWO_32 * SECOND
  {
  }

  /** From there on it wraps: a record that old counts as new. */
  lemma AgeWraps()
    ensures CacheAge(TWO_32 * SECOND, 0) == 0
  {
    assert Quotient(TWO_32 * SECOND, SECOND) == TWO_32;
  }

  predicate AllFresh(m: Msg, age: uint32)
  {
    forall rr :: rr in AllRecords(m) && !rr.isOpt ==> age < rr.ttl
  }

  /** One record at a later time, told from the clock alone. */
  ghost predicate ServedRecord(o: RR, v: RR, stored: int64, now: int64)
  {
    && v.isOpt == o.isOpt && v.data == o.data
    && (o.isOpt ==> v == o)
    && (!o.isOpt ==>
          && 1 <= v.ttl
          && (now <= stored ==> v.ttl == o.ttl)
          && (now > stored ==> stored + o.ttl * SECOND <= now + v.ttl * SECOND < stored + o.ttl * SECOND + SECOND))
  }

  ghost predicate ServedSection(o: seq<RR>, v: seq<RR>, stored: int64, now: int64)
  {
    |o| == |v| && forall i :: 0 <= i < |o| ==> ServedRecord(o[i], v[i], stored, now)
  }

  ghost predicate Served(o: Msg, v: Msg, q: Query, stored: int64, now: int64)
  {
    && v.id == q.id && v.question == q.question && v.rcode == o.rcode
    && ServedSection(o.answer, v.answer, stored, now)
    && ServedSection(o.ns, v.ns, stored, now)
    && ServedSection(o.extra, v.extra, stored, now)
  }

  function AgedRecord(rr: RR, age: uint32): RR
    requires !rr.isOpt ==> age < rr.ttl
  {
    if rr.isOpt then rr else rr.(ttl := rr.ttl - age)
  }

  predicate FreshSection(rrs: seq<RR>, age: uint32)
  {
    forall i :: 0 <= i < |rrs| ==> !rrs[i].isOpt ==> age < rrs[i].ttl
  }

  function AgedSection(rrs: seq<RR>, age: uint32): seq<RR>
    requires FreshSection(rrs, age)
  {
    seq(|rrs|, i requires 0 <= i < |rrs| => AgedRecord(rrs[i], age))
  }

  lemma FreshSections(m: Msg, age: uint32)
    ensures AllFresh(m, age) <==> FreshSection(m.answer, age) && FreshSection(m.ns, age) && FreshSection(m.extra, age)
  {
    if AllFresh(m, age) {
      assert forall i :: 0 <= i < |m.answer| ==> m.answer[i] in AllRecords(m);
      assert forall i :: 0 <= i < |m.ns| ==> m.ns[i] in AllRecords(m);
      assert forall i :: 0 <= i < |m.extra| ==> m.extra[i] in AllRecords(m);
    }
  }

  /** An answer to a query, aged. */
  function Aged(m: Msg, q: Query, age: uint32): Msg
    requires AllFresh(m, age)
  {
    FreshSections(m, age);
    Msg(q.id, q.question, m.rcode, AgedSection(m.answer, age), AgedSection(m.ns, age), AgedSection(m.extra, age))
  }

  /** A message on the heap, whose records are changed in place. */
  class Reply {
    var id: uint16
    var question: Bytes
    const rcode: nat
    const answer: array<RR>
    const ns: array<RR>
    const extra: array<RR>

    ghost predicate Separate()
    {
      answer != ns && answer != extra && ns != extra
    }

    ghost function View(): Msg
      reads this, answer, ns, extra
    {
      Msg(id, question, rcode, answer[..], ns[..], extra[..])
    }

    constructor (m: Msg)
      ensures View() == m && Separate() && fresh(answer) && fresh(ns) && fresh(extra)
    {
      id, question, rcode := m.id, m.question, m.rcode;
      answer := new RR[|m.answer|](i requires 0 <= i < |m.answer| => m.answer[i]);
      ns := new RR[|m.ns|](i requires 0 <= i < |m.ns| => m.ns[i]);
      extra := new RR[|m.extra|](i requires 0 <= i < |m.extra| => m.extra[i]);
      new;
      assert answer[..] == m.answer && ns[..] == m.ns && extra[..] == m.extra;
    }

    /** ageCachedAnswer: takes the age off every TTL, or says that some record has run out. */
    method Age(q: Query, age: uint32) returns (ok: bool)
      requires Separate()
      modifies this, answer, ns, extra
      ensures ok <==> AllFresh(old(View()), age)
      ensures ok ==> View() == Aged(old(View()), q, age)
    {
      hide AllFresh, FreshSection, AgedSection;
      FreshSections(View(), age);
      id, question := q.id, q.question;
      ok := AgeRecords(answer, age);
      if !ok {
        return;
      }
      ok := AgeRecords(ns, age);
      if !ok {
        return;
      }
      ok := AgeRecords(extra, age);
    }
  }

  /** The inner loop over one section. */
  method AgeRecords(rrs: array<RR>, age: uint32) returns (ok: bool)
    modifies rrs
    ensures ok <==> FreshSection(old(rrs[..]), age)
    ensures ok ==> rrs[..] == AgedSection(old(rrs[..]), age)
  {
    for i := 0 to rrs.Length
      invariant FreshSection(old(rrs[..])[..i], age)
      invariant forall k :: 0 <= k < i ==> rrs[k] == AgedRecord(old(rrs[..])[..i][k], age)
      invariant forall k :: i <= k < rrs.Length ==> rrs[k] == old(rrs[k])
    {
      ghost var was := old(rrs[..]);
      assert was[i] == rrs[i];
      if !rrs[i].isOpt {
        if age >= rrs[i].ttl {
          return false;
        }
        rrs[i] := rrs[i].(ttl := rrs[i].ttl - age);
      }
    }
    assert old(rrs[..])[..rrs.Length] == old(rrs[..]);
    return true;
  }

  // ----- what a hit means -----

  /**
   * Until it expires, the age of an answer stored by storeInCache cannot wrap,
   * and what is left of each TTL ends less than a second after the original did.
   */
  lemma AgedIsServed(opts: Options, stored: int64, m: Msg, q: Query, now: int64)
    requires ClockOk(stored) && MetaFor(opts, stored, m).Some? && now <= MetaFor(opts, stored, m).value.expiry
    requires AllFresh(m, CacheAge(now, stored))
    ensures Served(m, Aged(m, q, CacheAge(now, stored)), q, stored, now)
  {
    hide AllFresh, CacheAge, Lowest;
    var age := CacheAge(now, stored);
    FreshSections(m, age);
    AgeBeforeExpiry(opts, stored, m, now);
    SectionServed(m.answer, stored, now, age);
    SectionServed(m.ns, stored, now, age);
    SectionServed(m.extra, stored, now, age);
  }

  lemma AgeBeforeExpiry(opts: Options, stored: int64, m: Msg, now: int64)
    requires ClockOk(stored) && MetaFor(opts, stored, m).Some? && now <= MetaFor(opts, stored, m).value.expiry
    ensures now > stored ==> CacheAge(now, stored) == (now - stored) / SECOND
    ensures now <= stored ==> CacheAge(now, stored) == 0
  {
    hide Lowest;
    if now > stored {
      AgeExact(now, stored);
    }
  }

  lemma SectionServed(rrs: seq<RR>, stored: int64, now: int64, age: uint32)
    requires FreshSection(rrs, age)
    requires age == if now > stored then (now - stored) / SECOND else 0
    ensures ServedSection(rrs, AgedSection(rrs, age), stored, now)
  {
    forall i | 0 <= i < |rrs| ensures ServedRecord(rrs[i], AgedSection(rrs, age)[i], stored, now) {
      RecordServed(rrs[i], stored, now, age);
    }
  }

  lemma RecordServed(rr: RR, stored: int64, now: int64, age: uint32)
    requires !rr.isOpt ==> age < rr.ttl
    requires age == if now > stored then (now - stored) / SECOND else 0
    ensures ServedRecord(rr, AgedRecord(rr, age), stored, now)
  {
  }

  /** An unexpired answer can be served exactly while every one of its TTLs still runs. */
  lemma LiveIff(opts: Options, stored: int64, m: Msg, now: int64)
    requires ClockOk(stored) && MetaFor(opts, stored, m).Some? && now <= MetaFor(opts, stored, m).value.expiry
    ensures AllFresh(m, CacheAge(now, stored)) <==>
            forall rr :: rr in AllRecords(m) && !rr.isOpt ==> rr.ttl > 0 && now < stored + rr.ttl * SECOND
  {
    hide CacheAge, Lowest;
    AgeBeforeExpiry(opts, stored, m, now);
  }

  /**
   * Without a limit for its code, an ordinary answer is served for exactly as
   * long as its lowest TTL, to the nanosecond.
   */
  lemma ServedForLowestTtl(opts: Options, stored: int64, m: Msg, now: int64)
    requires ClockOk(stored) && m.rcode in {NOERROR, NXDOMAIN, REFUSED, NOTIMP, FORMERR} && m.rcode !in opts.rcodeMaxTtl
    requires 0 < Lowest(AllRecords(m)) < MAX_TTL
    ensures now <= MetaFor(opts, stored, m).value.expiry && AllFresh(m, CacheAge(now, stored)) <==>
            now < stored + Lowest(AllRecords(m)) * SECOND
  {
    hide CacheAge, Lowest;
    LowestIsLowest(AllRecords(m));
    if now <= MetaFor(opts, stored, m).value.expiry {
      LiveIff(opts, stored, m, now);
    }
  }

  /** An ordinary answer with records is kept for its lowest TTL exactly if that is below the largest value, or equals the negative TTL. */
  lemma KeptForLowestTtl(opts: Options, stored: int64, m: Msg)
    requires ClockOk(stored) && m.rcode in {NOERROR, NXDOMAIN, REFUSED, NOTIMP, FORMERR} && m.rcode !in opts.rcodeMaxTtl
    requires exists rr :: rr in AllRecords(m) && !rr.isOpt
    ensures
      var low := Lowest(AllRecords(m));
      && (exists rr :: rr in AllRecords(m) && !rr.isOpt && rr.ttl == low)
      && (MetaFor(opts, stored, m).value.expiry == stored + low * SECOND <==> low < MAX_TTL || opts.negativeTtl == MAX_TTL)
  {
    hide Lowest;
    LowestIsLowest(AllRecords(m));
  }

  /** One record of the largest TTL is kept for the negative TTL instead. */
  lemma LargestTtlMissed(stored: int64)
    requires ClockOk(stored)
    ensures
      var m, opts := Msg(0, [], NOERROR, [RR(false, MAX_TTL, [])], [], []), Options(60, 0, map[]);
      MetaFor(opts, stored, m).value.expiry == stored + 60 * SECOND
  {
    var m := Msg(0, [], NOERROR, [RR(false, MAX_TTL, [])], [], []);
    assert AllRecords(m) == [RR(false, MAX_TTL, [])];
    LowestSnoc([], RR(false, MAX_TTL, []));
    assert [] + [RR(false, MAX_TTL, [])] == AllRecords(m);
  }

  /** A failure is never kept for longer than five minutes. */
  lemma FailureLimit(opts: Options, stored: int64, m: Msg)
    requires ClockOk(stored) && m.rcode == SERVFAIL
    ensures MetaFor(opts, stored, m).Some? && MetaFor(opts, stored, m).value.expiry <= stored + 300 * SECOND
  {
    hide Lowest;
  }
}
