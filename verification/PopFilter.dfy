/**
 The frequency cap on pop-ups: requests ask whether a user gets one more pop-up for an
 advertisement, and confirmations that an earlier one was shown arrive on their own. The same
 machine stands behind the four copies of the code, with its own limits in each.
 */
module PopFilter {
  import opened Options

  datatype Limits = Limits(maxNum: int, factNum: int, factDelay: int, delay: int)

  datatype UserInfo = UserInfo(factCount: int, factTime: int, count: int, lTime: int)

  /** What happened under one key, of an advertisement and a user agent: a pop-up, or a confirmation. */
  datatype Mark = Pop(at: int) | Fact(at: int)

  // ----- histories

  function Pops(h: seq<Mark>): nat {
    if h == [] then 0 else Pops(h[..|h| - 1]) + if h[|h| - 1].Pop? then 1 else 0
  }

  function Facts(h: seq<Mark>): nat {
    if h == [] then 0 else Facts(h[..|h| - 1]) + if h[|h| - 1].Fact? then 1 else 0
  }

  /** The time of the last pop-up. */
  function LastPop(h: seq<Mark>): int
    requires Pops(h) > 0
  {
    if h[|h| - 1].Pop? then h[|h| - 1].at else LastPop(h[..|h| - 1])
  }

  /** The time of the latest confirmation since the last pop-up. */
  function Confirmed(h: seq<Mark>): Option<int> {
    if h == [] || h[|h| - 1].Pop? then None else Some(h[|h| - 1].at)
  }

  /** Whether a request at this time may pop, by what happened so far. */
  predicate Allowed(lim: Limits, h: seq<Mark>, now: int) {
    Pops(h) == 0 ||
    (&& Pops(h) < lim.maxNum
     && Facts(h) < lim.factNum
     && match Confirmed(h)
        case Some(t) => now - t >= lim.delay
        case None => now - LastPop(h) >= lim.factDelay)
  }

  /** Every pop-up of the history was allowed when it happened, and nothing is confirmed before one. */
  predicate Legal(lim: Limits, h: seq<Mark>) {
    h == [] ||
    (&& Legal(lim, h[..|h| - 1])
     && match h[|h| - 1]
        case Pop(t) => Allowed(lim, h[..|h| - 1], t)
        case Fact(t) => t > 0 && Pops(h[..|h| - 1]) > 0)
  }

  lemma OneMore(h: seq<Mark>, m: Mark)
    ensures (h + [m])[..|h|] == h && (h + [m])[|h|] == m
    ensures Pops(h + [m]) == Pops(h) + (if m.Pop? then 1 else 0)
    ensures Facts(h + [m]) == Facts(h) + (if m.Fact? then 1 else 0)
    ensures Confirmed(h + [m]) == if m.Pop? then None else Some(m.at)
  {
    assert (h + [m])[..|h|] == h;
  }

  lemma StillLegal(lim: Limits, h: seq<Mark>, m: Mark)
    requires Legal(lim, h)
    requires if m.Pop? then Allowed(lim, h, m.at) else m.at > 0 && Pops(h) > 0
    ensures Legal(lim, h + [m]) && Pops(h + [m]) > 0
  {
    OneMore(h, m);
  }

  lemma FirstRecord(now: int)
    ensures Pops([Pop(now)]) == 1 && RecordOf([Pop(now)]) == UserInfo(0, 0, 1, now)
  {
    OneMore([], Pop(now));
  }

  /** The record that stands for a history: only counts and the two latest times are kept. */
  function RecordOf(h: seq<Mark>): UserInfo
    requires Pops(h) > 0
  {
    UserInfo(Facts(h), if Confirmed(h).Some? then Confirmed(h).value else 0, Pops(h), LastPop(h))
  }

  // ----- when one more pop-up happens

  lemma {:induction false} CountPops(h: seq<Mark>)
    ensures Pops(h) == |set i | 0 <= i < |h| && h[i].Pop?|
  {
    var now := set i | 0 <= i < |h| && h[i].Pop?;
    if h == [] {
      assert now == {};
    } else {
      var p := h[..|h| - 1];
      CountPops(p);
      var before := set i | 0 <= i < |p| && p[i].Pop?;
      assert now == if h[|h| - 1].Pop? then before + {|h| - 1} else before;
    }
  }

  /**
   After every legal history the next request is allowed if and only if nothing has happened yet, or
   pop-ups and confirmations are below their limits and the delay that belongs to the last mark has
   passed since then.
   */
  lemma DueExact(lim: Limits, h: seq<Mark>, now: int)
    requires Legal(lim, h)
    ensures Allowed(lim, h, now) <==>
      || h == []
      || (&& |set i | 0 <= i < |h| && h[i].Pop?| < lim.maxNum
          && |set i | 0 <= i < |h| && h[i].Fact?| < lim.factNum
          && now - h[|h| - 1].at >= if h[|h| - 1].Fact? then lim.delay else lim.factDelay)
  {
    CountPops(h);
    CountFacts(h);
    if h != [] { PopFirst(lim, h); }
  }

  lemma {:induction false} PopFirst(lim: Limits, h: seq<Mark>)
    requires Legal(lim, h) && h != []
    ensures Pops(h) > 0
  {
  }

  // ----- keys

  /** The key of a record: the advertisement and the user agent, with nothing between them. */
  function KeyOf(ad: string, ua: string): string {
    ad + ua
  }

  /**
   Two pairs share one record, and so one history, exactly if the longer advertisement is the
   shorter one with a front of its user agent, and the rest is the other user agent.
   */
  lemma SharedExact(ad: string, ua: string, ad': string, ua': string)
    requires |ad| <= |ad'|
    ensures KeyOf(ad, ua) == KeyOf(ad', ua') <==> ad <= ad' && ua == ad'[|ad|..] + ua'
  {
    var key, key' := KeyOf(ad, ua), KeyOf(ad', ua');
    assert key[..|ad|] == ad && key[|ad|..] == ua;
    assert key'[..|ad|] == ad'[..|ad|] && key'[|ad|..] == ad'[|ad|..] + ua';
    if ad <= ad' && ua == ad'[|ad|..] + ua' {
      assert ad' == ad + ad'[|ad|..];
    }
  }

  /** The first request of such a pair is refused when the other pair has just had its pop-up. */
  lemma SharedRefused(lim: Limits, at: int, now: int)
    ensures Allowed(lim, [Pop(at)], now) <==> 1 < lim.maxNum && 0 < lim.factNum && now - at >= lim.factDelay
  {
    FirstRecord(at);
    OneMore([], Pop(at));
  }

  // ----- the filter

  /** The request counter that both target copies of a thread share; only its parity is used. */
  class Sampler {
    var totalNum: nat

    constructor ()
      ensures totalNum == 0
    {
      totalNum := 0;
    }
  }

  class Filter {
    const lim: Limits
    const sampler: Sampler?
    var users: map<string, UserInfo>
    ghost var history: map<string, seq<Mark>>

    ghost predicate Valid()
      reads this
    {
      && users.Keys == history.Keys
      && forall k :: k in users ==>
           Legal(lim, history[k]) && Pops(history[k]) > 0 && users[k] == RecordOf(history[k])
    }

    ghost function Past(key: string): seq<Mark>
      reads this
    {
      if key in history then history[key] else []
    }

    /** The target copies look only at every second request that names an advertisement. */
    constructor (lim: Limits, sampler: Sampler?)
      ensures Valid() && history == map[] && this.lim == lim && this.sampler == sampler
    {
      this.lim, this.sampler := lim, sampler;
      users, history := map[], map[];
    }

    /** rule_pop_is_send_target_message: a request of a user agent at a time, for an advertisement. */
    method IsSend(ad: Option<string>, ua: string, lSec: int) returns (send: bool)
      requires Valid()
      modifies this, if sampler == null then {} else {sampler}
      ensures Valid()
      ensures sampler != null ==> sampler.totalNum == old(sampler.totalNum) + if ad.Some? then 1 else 0
      ensures var looked := ad.Some? && (sampler == null || sampler.totalNum % 2 == 0);
        && (!looked ==> !send)
        && (looked ==>
              var h := old(Past(ad.value + ua));
              (send <==> (h == [] ||
                (&& |set i | 0 <= i < |h| && h[i].Pop?| < lim.maxNum
                 && |set i | 0 <= i < |h| && h[i].Fact?| < lim.factNum
                 && lSec - h[|h| - 1].at >= if h[|h| - 1].Fact? then lim.delay else lim.factDelay))))
        && history == if send then old(history)[ad.value + ua := old(Past(ad.value + ua)) + [Pop(lSec)]] else old(history)
    {
      if ad.None? { return false; }
      if sampler != null {
        sampler.totalNum := sampler.totalNum + 1;
        if sampler.totalNum % 2 != 0 { return false; }
      }
      var key := KeyOf(ad.value, ua);
      DueExact(lim, Past(key), lSec);
      send := Consider(key, lSec);
    }

    /** The part of the decision that looks at the user's record. */
    method Consider(key: string, lSec: int) returns (send: bool)
      requires Valid()
      modifies this`users, this`history
      ensures Valid() && (send <==> Allowed(lim, old(Past(key)), lSec))
      ensures history == if send then old(history)[key := old(Past(key)) + [Pop(lSec)]] else old(history)
    {
      ghost var h := Past(key);
      if key in users {
        var next := OneMorePop(users[key], lSec, h);
        if next.None? { return false; }
        StillLegal(lim, h, Pop(lSec));
        Store(key, next.value, Pop(lSec));
      } else {
        StillLegal(lim, h, Pop(lSec));
        FirstRecord(lSec);
        Store(key, UserInfo(0, 0, 1, lSec), Pop(lSec));
      }
      return true;
    }

    /** The record of a user that has been seen, after one more pop-up if that is allowed. */
    method OneMorePop(info: UserInfo, lSec: int, ghost h: seq<Mark>) returns (next: Option<UserInfo>)
      requires Legal(lim, h) && Pops(h) > 0 && info == RecordOf(h)
      ensures next.Some? <==> Allowed(lim, h, lSec)
      ensures next.Some? ==> next.value == RecordOf(h + [Pop(lSec)])
    {
      OneMore(h, Pop(lSec));
      FactTimes(lim, h);
      if info.count >= lim.maxNum { return None; }
      if info.factCount < lim.factNum {
        if info.factTime == 0 {
          if lSec - info.lTime < lim.factDelay { return None; }
          return Some(info.(count := info.count + 1, lTime := lSec));
        } else if info.factTime > 0 {
          if lSec - info.factTime < lim.delay { return None; }
          return Some(info.(count := info.count + 1, lTime := lSec, factTime := 0));
        }
      }
      return None;
    }

    /** Writing back the record of a user. */
    method Store(key: string, info: UserInfo, ghost m: Mark)
      requires Valid() && Legal(lim, Past(key) + [m])
      requires Pops(Past(key) + [m]) > 0 && info == RecordOf(Past(key) + [m])
      modifies this`users, this`history
      ensures Valid() && history == old(history)[key := old(Past(key)) + [m]]
    {
      users := users[key := info];
      history := history[key := Past(key) + [m]];
    }

    /** The step of get_data_pass_back for one message; the clock of that thread is past zero. */
    method PassBack(ad: string, ua: string, currTime: int)
      requires Valid() && currTime > 0
      modifies this
      ensures Valid()
      ensures var key := ad + ua;
        history == if key in old(history) then old(history)[key := old(history)[key] + [Fact(currTime)]]
                   else old(history)
    {
      var key := KeyOf(ad, ua);
      if key in users {
        OneMore(history[key], Fact(currTime));
        StillLegal(lim, history[key], Fact(currTime));
        var info := users[key];
        Store(key, info.(factCount := info.factCount + 1, factTime := currTime), Fact(currTime));
      }
    }
  }

  /** A confirmation after which there was no pop-up. */
  predicate Pending(h: seq<Mark>, i: nat) {
    i < |h| && h[i].Fact? && forall j :: i < j < |h| ==> !h[j].Pop?
  }

  /**
   The kept time of a confirmation is non-zero exactly if one came since the last pop-up; it is
   then the time of the latest one, and all confirmations are counted.
   */
  lemma {:induction false} FactTimes(lim: Limits, h: seq<Mark>)
    requires Legal(lim, h) && Pops(h) > 0
    ensures RecordOf(h).factTime != 0 <==> exists i :: Pending(h, i)
    ensures RecordOf(h).factTime >= 0
    ensures RecordOf(h).factTime != 0 ==> Pending(h, |h| - 1) && RecordOf(h).factTime == h[|h| - 1].at
    ensures RecordOf(h).factCount == |set i | 0 <= i < |h| && h[i].Fact?|
  {
    CountFacts(h);
    if h[|h| - 1].Fact? { assert Pending(h, |h| - 1); }
  }

  lemma {:induction false} CountFacts(h: seq<Mark>)
    ensures Facts(h) == |set i | 0 <= i < |h| && h[i].Fact?|
  {
    var now := set i | 0 <= i < |h| && h[i].Fact?;
    if h == [] {
      assert now == {};
    } else {
      var p := h[..|h| - 1];
      CountFacts(p);
      var before := set i | 0 <= i < |p| && p[i].Fact?;
      assert now == if h[|h| - 1].Fact? then before + {|h| - 1} else before;
    }
  }

  // ----- what every history of the filter satisfies

  lemma {:induction false} PopsBounded(lim: Limits, h: seq<Mark>)
    requires Legal(lim, h)
    ensures Pops(h) <= if lim.maxNum > 1 then lim.maxNum else 1
  {
    if h != [] { PopsBounded(lim, h[..|h| - 1]); }
  }

  /** Once the confirmations reach their limit there are no more pop-ups. */
  lemma {:induction false} NoPopAfterFacts(lim: Limits, h: seq<Mark>, n: nat)
    requires Legal(lim, h) && n <= |h| && Facts(h[..n]) >= lim.factNum && Pops(h[..n]) > 0
    ensures Pops(h) == Pops(h[..n])
    decreases |h|
  {
    if n == |h| {
      assert h[..n] == h;
    } else {
      assert h[..|h| - 1][..n] == h[..n];
      NoPopAfterFacts(lim, h[..|h| - 1], n);
      MarksGrow(h[..|h| - 1], n);
    }
  }

  lemma {:induction false} MarksGrow(h: seq<Mark>, n: nat)
    requires n <= |h|
    ensures Facts(h) >= Facts(h[..n]) && Pops(h) >= Pops(h[..n])
    decreases |h|
  {
    if n == |h| {
      assert h[..n] == h;
    } else {
      assert h[..|h| - 1][..n] == h[..n];
      MarksGrow(h[..|h| - 1], n);
    }
  }

  /** Two pop-ups with nothing but confirmations between them. */
  predicate NextPop(h: seq<Mark>, a: nat, b: nat) {
    && a < b < |h| && h[a].Pop? && h[b].Pop?
    && forall k :: a < k < b ==> h[k].Fact?
  }

  /**
   A pop-up keeps the shorter delay after the one before it if that was not confirmed, and the
   longer one after its latest confirmation if it was.
   */
  lemma {:induction false} PopsSpaced(lim: Limits, h: seq<Mark>, a: nat, b: nat)
    requires Legal(lim, h) && NextPop(h, a, b)
    ensures if b == a + 1 then h[b].at - h[a].at >= lim.factDelay else h[b].at - h[b - 1].at >= lim.delay
    decreases |h|
  {
    var p := h[..|h| - 1];
    if b < |h| - 1 {
      PopsSpaced(lim, p, a, b);
    } else {
      PopsFrom(p, a);
      assert p[|p| - 1] == h[b - 1];
    }
  }

  lemma {:induction false} PopsFrom(h: seq<Mark>, a: nat)
    requires a < |h| && h[a].Pop?
    ensures Pops(h) > 0
  {
    if a < |h| - 1 { PopsFrom(h[..|h| - 1], a); }
  }

  // ----- the rate of pop-ups

  predicate OneClock(h: seq<Mark>) {
    forall i, j :: 0 <= i < j < |h| ==> h[i].at <= h[j].at
  }

  function FirstPop(h: seq<Mark>): int
    requires Pops(h) > 0
  {
    if Pops(h[..|h| - 1]) > 0 then FirstPop(h[..|h| - 1]) else h[|h| - 1].at
  }

  function Product(n: nat, gap: nat): nat {
    if n == 0 then 0 else Product(n - 1, gap) + gap
  }

  lemma {:induction false} LastPopBefore(h: seq<Mark>)
    requires Pops(h) > 0 && OneClock(h)
    ensures forall i :: 0 <= i < |h| && h[i].Pop? ==> h[i].at <= LastPop(h)
    ensures LastPop(h) <= h[|h| - 1].at
  {
    if !h[|h| - 1].Pop? {
      LastPopBefore(h[..|h| - 1]);
    }
  }

  /** If both clocks agree, n pop-ups to a user take at least n - 1 times the shorter delay. */
  lemma {:induction false} PopRate(lim: Limits, h: seq<Mark>, gap: nat)
    requires Legal(lim, h) && OneClock(h) && Pops(h) > 0
    requires gap <= lim.delay && gap <= lim.factDelay
    ensures LastPop(h) - FirstPop(h) >= Product(Pops(h) - 1, gap)
    decreases |h|
  {
    var p := h[..|h| - 1];
    if Pops(p) > 0 {
      PopRate(lim, p, gap);
      if h[|h| - 1].Pop? {
        LastPopBefore(p);
      }
    }
  }
}
