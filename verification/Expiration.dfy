/**
 * `ExpirationTracker` of crow/middlewares/session.h: an ordered set of (time, key) pairs and a
 * map from keys to times kept as one relation, and the file store's removal of expired keys.
 */
module Expiration {

  type uint64 = n: int | 0 <= n < 0x1_0000_0000_0000_0000

  const MAX_TIME: uint64 := 0xFFFF_FFFF_FFFF_FFFF

  /** The order of strings. */
  predicate Below(a: string, b: string) {
    b != [] && (a == [] || a[0] < b[0] || (a[0] == b[0] && Below(a[1..], b[1..])))
  }

  /** `std::pair`'s order. */
  predicate Before(a: (uint64, string), b: (uint64, string)) {
    a.0 < b.0 || (a.0 == b.0 && Below(a.1, b.1))
  }

  lemma {:induction false} BelowIsTotal(a: string, b: string)
    ensures Below(a, b) || Below(b, a) || a == b
  {
    if a != [] && b != [] && a[0] == b[0] {
      BelowIsTotal(a[1..], b[1..]);
      assert a == [a[0]] + a[1..] && b == [b[0]] + b[1..];
    }
  }

  lemma {:induction false} BelowIsTransitive(a: string, b: string, c: string)
    requires Below(a, b) && Below(b, c)
    ensures Below(a, c)
  {
    if a != [] && a[0] == b[0] == c[0] {
      BelowIsTransitive(a[1..], b[1..], c[1..]);
    }
  }

  lemma BeforeIsTransitive(a: (uint64, string), b: (uint64, string), c: (uint64, string))
    requires Before(a, b) && Before(b, c)
    ensures Before(a, c)
  {
    if a.0 == b.0 == c.0 {
      BelowIsTransitive(a.1, b.1, c.1);
    }
  }

  ghost predicate IsFirst(q: set<(uint64, string)>, a: (uint64, string)) {
    a in q && forall b :: b in q && b != a ==> Before(a, b)
  }

  lemma {:induction false} FirstExists(q: set<(uint64, string)>) returns (a: (uint64, string))
    requires q != {}
    ensures IsFirst(q, a)
  {
    var x :| x in q;
    var rest := q - {x};
    a := x;
    if rest != {} {
      var b := FirstExists(rest);
      BelowIsTotal(x.1, b.1);
      a := if Before(x, b) then x else b;
      forall c | c in q && c != a ensures Before(a, c) {
        assert c == x || c in rest;
        if a == x && c != b {
          BeforeIsTransitive(x, b, c);
        }
      }
    } else {
      assert q == {x};
    }
  }

  class ExpirationTracker {
    var queue: set<(uint64, string)>
    var times: map<string, uint64>

    /** The queue and the map are one relation. */
    ghost predicate Valid()
      reads this
    {
      forall t, k :: (t, k) in queue <==> k in times && times[k] == t
    }

    constructor ()
      ensures Valid() && times == map[]
    {
      queue, times := {}, map[];
    }

    method Add(key: string, time: uint64)
      requires Valid()
      modifies this
      ensures Valid() && times == old(times)[key := time]
    {
      if key in times {
        Remove(key);
      }
      times := times[key := time];
      queue := queue + {(time, key)};
    }

    method Remove(key: string)
      requires Valid()
      modifies this
      ensures Valid() && times == old(times) - {key}
    {
      if key in times {
        queue := queue - {(times[key], key)};
        times := times - {key};
      }
    }

    /** `queue_.begin()` */
    method Begin() returns (a: (uint64, string))
      requires queue != {}
      ensures IsFirst(queue, a)
    {
      ghost var first := FirstExists(queue);
      assert forall b :: b in queue ==> b == first || Before(first, b);
      a :| a in queue && forall b :: b in queue ==> b == a || Before(a, b);
    }

    method PeekFirst() returns (t: uint64)
      requires Valid()
      ensures times == map[] ==> t == MAX_TIME
      ensures times != map[] ==> exists k :: IsFirst(queue, (t, k))
    {
      if queue == {} {
        assert times == map[] by {
          assert forall k :: k in times ==> (times[k], k) in queue;
        }
        return MAX_TIME;
      }
      var a := Begin();
      assert IsFirst(queue, (a.0, a.1));
      assert a.1 in times;
      return a.0;
    }

    lemma NoneEarlier(t: uint64)
      requires Valid() && (times != map[] ==> exists k :: IsFirst(queue, (t, k)))
      ensures forall k :: k in times ==> times[k] >= t
    {
      assert forall k :: k in times ==> (times[k], k) in queue;
    }

    method PopFirst() returns (key: string)
      requires Valid() && times != map[]
      modifies this
      ensures Valid() && key in old(times) && times == old(times) - {key}
      ensures IsFirst(old(queue), (old(times)[key], key))
    {
      assert queue != {} by {
        var k :| k in times;
        assert (times[k], k) in queue;
      }
      var a := Begin();
      key := a.1;
      times := times - {key};
      queue := queue - {a};
    }
  }

  /** Expired keys go, in order and before all keys that stay. */
  ghost predicate Evicting(before: map<string, uint64>, after: map<string, uint64>, evicted: seq<string>, now: uint64) {
    && (forall i :: 0 <= i < |evicted| ==> evicted[i] in before && before[evicted[i]] < now)
    && (forall i, j :: 0 <= i < j < |evicted| ==>
          Before((before[evicted[i]], evicted[i]), (before[evicted[j]], evicted[j])))
    && (forall k :: k in after <==> k in before && k !in evicted)
    && (forall k :: k in after ==> after[k] == before[k])
    && (forall i, k :: 0 <= i < |evicted| && k in after ==> Before((before[evicted[i]], evicted[i]), (before[k], k)))
  }

  /** At most three keys go; fewer only when nothing expired is left. */
  ghost predicate Evicts(before: map<string, uint64>, after: map<string, uint64>, evicted: seq<string>, now: uint64) {
    && Evicting(before, after, evicted, now) && |evicted| <= 3
    && (|evicted| < 3 ==> forall k :: k in after ==> after[k] >= now)
  }

  lemma OneMore(before: map<string, uint64>, mid: map<string, uint64>, evicted: seq<string>, now: uint64, key: string)
    requires Evicting(before, mid, evicted, now) && key in mid && mid[key] < now
    requires forall k :: k in mid && k != key ==> Before((mid[key], key), (mid[k], k))
    ensures Evicting(before, mid - {key}, evicted + [key], now)
  {
    var es := evicted + [key];
    assert forall k :: k in es <==> k in evicted || k == key;
  }

  class FileStore {
    const expirations: ExpirationTracker
    var files: set<string>

    constructor (expirations: ExpirationTracker)
      ensures this.expirations == expirations && files == {}
    {
      this.expirations, files := expirations, {};
    }

    /** `handle_expired`: the evicted files are removed, and no others. */
    method HandleExpired(now: uint64) returns (ghost evicted: seq<string>)
      requires expirations.Valid()
      modifies this, expirations
      ensures expirations.Valid() && Evicts(old(expirations.times), expirations.times, evicted, now)
      ensures forall f :: f in files <==> f in old(files) && f !in evicted
    {
      evicted := [];
      var deleted := 0;
      ghost var before := expirations.times;
      var soonest := expirations.PeekFirst();
      while now > soonest && deleted < 3
        invariant deleted == |evicted| <= 3 && expirations.Valid()
        invariant Evicting(before, expirations.times, evicted, now)
        invariant expirations.times == map[] ==> soonest == MAX_TIME
        invariant expirations.times != map[] ==> exists k :: IsFirst(expirations.queue, (soonest, k))
        invariant forall f :: f in files <==> f in old(files) && f !in evicted
        decreases 3 - deleted
      {
        var key := EvictFirst(before, evicted, now, soonest);
        evicted := evicted + [key];
        deleted := deleted + 1;
        soonest := expirations.PeekFirst();
      }
      if deleted < 3 {
        expirations.NoneEarlier(soonest);
      }
    }

    method EvictFirst(ghost before: map<string, uint64>, ghost evicted: seq<string>, ghost now: uint64,
        ghost soonest: uint64)
      returns (key: string)
      requires expirations.Valid() && expirations.times != map[] && soonest < now
      requires exists k :: IsFirst(expirations.queue, (soonest, k))
      requires Evicting(before, expirations.times, evicted, now)
      modifies this, expirations
      ensures expirations.Valid() && Evicting(before, expirations.times, evicted + [key], now)
      ensures files == old(files) - {key}
    {
      ghost var q, mid := expirations.queue, expirations.times;
      key := expirations.PopFirst();
      files := files - {key};
      assert mid[key] == soonest;
      assert forall k :: k in mid ==> (mid[k], k) in q;
      OneMore(before, mid, evicted, now, key);
    }
  }
}
