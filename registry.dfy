/** The presence registry of server.py: an in-memory list of server records,
    upserted by an announce keyed on (public_ip, port) and listed through a
    60-second liveness filter. */
module Registry {

  import opened Common

  /** The scalar JSON values an announce payload carries. */
  datatype Json = JNull | JBool(b: bool) | JInt(i: int) | JStr(s: string)

  /** A decoded JSON object: an announce payload or a stored server record. */
  type Record = map<string, Json>

  /** HTTP status codes: 200 OK and 400 Bad Request (sections 15.3.1 and 15.5.1 of RFC 9110). */
  const StatusOk: int := 200
  const StatusBadRequest: int := 400

  /** Seconds after its last announce during which a record is listed. */
  const LivenessWindow: int := 60

  /** Every field an announce must carry. */
  predicate HasRequiredFields(d: Record)
  {
    "name" in d && "public_ip" in d && "port" in d && "map" in d
  }

  /** `s` and `d` name the same server: equal public_ip and equal port. */
  predicate SameKey(s: Record, d: Record)
  {
    "public_ip" in s && "port" in s && "public_ip" in d && "port" in d &&
    s["public_ip"] == d["public_ip"] && s["port"] == d["port"]
  }

  /** What every stored record looks like: the announced fields and an integer stamp. */
  predicate Stored(r: Record)
  {
    HasRequiredFields(r) && "last_seen" in r && r["last_seen"].JInt?
  }

  /** At most one record per (public_ip, port). */
  predicate UniqueKeys(ss: seq<Record>)
  {
    forall i, j :: 0 <= i < j < |ss| ==> !SameKey(ss[i], ss[j])
  }

  predicate WellFormed(ss: seq<Record>)
  {
    (forall i :: 0 <= i < |ss| ==> Stored(ss[i])) && UniqueKeys(ss)
  }

  /** Position of the first record with the payload's key, if any. */
  function FirstMatch(ss: seq<Record>, d: Record): (r: Option<nat>)
    ensures r.Some? ==> r.value < |ss| && SameKey(ss[r.value], d)
    ensures r.Some? ==> forall j :: 0 <= j < r.value ==> !SameKey(ss[j], d)
    ensures r.None? <==> forall j :: 0 <= j < |ss| ==> !SameKey(ss[j], d)
  {
    if ss == [] then None
    else if SameKey(ss[0], d) then Some(0)
    else match FirstMatch(ss[1..], d)
      case None => None
      case Some(k) => Some(k + 1)
  }

  /** `s.update(d)` followed by `s["last_seen"] = now`. */
  function Refresh(s: Record, d: Record, now: int): (r: Record)
    ensures r.Keys == s.Keys + d.Keys + {"last_seen"}
    ensures r["last_seen"] == JInt(now)
    ensures forall f :: f in d && f != "last_seen" ==> r[f] == d[f]
    ensures forall f :: f in s && f !in d && f != "last_seen" ==> r[f] == s[f]
  {
    (s + d)["last_seen" := JInt(now)]
  }

  /** `r` carries every field of the payload `d` other than its `last_seen`. */
  predicate Carries(r: Record, d: Record)
  {
    forall f :: f in d && f != "last_seen" ==> f in r && r[f] == d[f]
  }

  /** The store after a well-formed announce: the first record with the same key is
      refreshed in place, otherwise the stamped payload is appended. */
  function Upsert(ss: seq<Record>, d: Record, now: int): seq<Record>
  {
    match FirstMatch(ss, d)
    case Some(i) => ss[i := Refresh(ss[i], d, now)]
    case None => ss + [Refresh(map[], d, now)]
  }

  /** The `s.get("last_seen", 0)` of the listing: a missing stamp reads as 0. */
  function LastSeen(r: Record): int
  {
    if "last_seen" in r && r["last_seen"].JInt? then r["last_seen"].i else 0
  }

  predicate IsFresh(r: Record, now: int)
  {
    now - LastSeen(r) < LivenessWindow
  }

  /** The records a listing at time `now` returns, in stored order. */
  function Live(ss: seq<Record>, now: int): (r: seq<Record>)
    ensures |r| <= |ss|
    ensures forall x :: x in r <==> x in ss && IsFresh(x, now)
  {
    if ss == [] then []
    else (if IsFresh(ss[0], now) then [ss[0]] else []) + Live(ss[1..], now)
  }

  /** The module-level `servers` list of server.py. */
  class Store {
    var servers: seq<Record>

    ghost predicate Valid()
      reads this
    {
      WellFormed(servers)
    }

    constructor ()
      ensures Valid() && servers == []
    {
      servers := [];
    }

    /** The `/add_server` handler: 400 and no change when a field is missing,
        otherwise upsert by (public_ip, port) stamped with `now`, and 200. */
    method AddServer(data: Record, now: int) returns (status: int)
      requires Valid()
      modifies this
      ensures Valid()
      ensures status == (if HasRequiredFields(data) then StatusOk else StatusBadRequest)
      ensures servers == (if HasRequiredFields(data) then Upsert(old(servers), data, now) else old(servers))
    {
      if !HasRequiredFields(data) {
        return StatusBadRequest;
      }
      var serverExists := false;
      var i := 0;
      while i < |servers|
        invariant 0 <= i <= |servers|
        invariant servers == old(servers)
        invariant forall j :: 0 <= j < i ==> !SameKey(servers[j], data)
      {
        if SameKey(servers[i], data) {
          servers := servers[i := Refresh(servers[i], data, now)];
          serverExists := true;
          break;
        }
        i := i + 1;
      }
      if !serverExists {
        servers := servers + [Refresh(map[], data, now)];
      }
      UpsertKeepsWellFormed(old(servers), data, now);
      return StatusOk;
    }

    /** The `/servers` handler: the live records, read without changing the store. */
    function ListLive(now: int): (r: seq<Record>)
      reads this
      ensures forall x :: x in r <==> x in servers && IsFresh(x, now)
    {
      Live(servers, now)
    }
  }

  /** A record's key is that of the payload it was refreshed with. */
  lemma RefreshKeepsKey(s: Record, d: Record, now: int)
    requires HasRequiredFields(d)
    ensures SameKey(Refresh(s, d, now), d)
    ensures HasRequiredFields(Refresh(s, d, now))
    ensures Stored(Refresh(s, d, now))
  {
  }

  /** An announce for a key already stored replaces that one record and keeps the length. */
  lemma UpsertUpdatesInPlace(ss: seq<Record>, d: Record, now: int, i: nat)
    requires WellFormed(ss) && HasRequiredFields(d)
    requires i < |ss| && SameKey(ss[i], d)
    ensures Upsert(ss, d, now) == ss[i := Refresh(ss[i], d, now)]
    ensures |Upsert(ss, d, now)| == |ss|
  {
    var m := FirstMatch(ss, d);
    assert m.Some?;
    if m.value != i {
      assert false;
    }
  }

  /** An announce for a new key appends exactly one record, the stamped payload. */
  lemma UpsertAppendsNew(ss: seq<Record>, d: Record, now: int)
    requires forall j :: 0 <= j < |ss| ==> !SameKey(ss[j], d)
    ensures Upsert(ss, d, now) == ss + [d["last_seen" := JInt(now)]]
  {
    assert Refresh(map[], d, now) == d["last_seen" := JInt(now)];
  }

  /** Every announce keeps the store well formed: at most one record per key. */
  lemma UpsertKeepsWellFormed(ss: seq<Record>, d: Record, now: int)
    requires WellFormed(ss) && HasRequiredFields(d)
    ensures WellFormed(Upsert(ss, d, now))
  {
    RefreshKeepsKey(map[], d, now);
    match FirstMatch(ss, d)
    case None =>
      var r := Upsert(ss, d, now);
      assert r == ss + [Refresh(map[], d, now)];
      forall i, j | 0 <= i < j < |r| ensures !SameKey(r[i], r[j]) {
        if j == |ss| {
          assert r[i] == ss[i];
          assert !SameKey(ss[i], d);
        }
      }
    case Some(k) =>
      RefreshKeepsKey(ss[k], d, now);
      var r := Upsert(ss, d, now);
      forall i, j | 0 <= i < j < |r| ensures !SameKey(r[i], r[j]) {
        if i == k {
          assert !SameKey(ss[k], ss[j]);
        } else if j == k {
          assert !SameKey(ss[i], ss[k]);
        }
      }
  }

  /** After an announce at `now` the store holds exactly one record with the payload's key;
      it carries the payload's fields and the stamp `now`, even when the payload had its own
      `last_seen`. */
  lemma UpsertStampsOneRecord(ss: seq<Record>, d: Record, now: int)
    requires WellFormed(ss) && HasRequiredFields(d)
    ensures var r := Upsert(ss, d, now);
      exists k :: 0 <= k < |r| && SameKey(r[k], d) && LastSeen(r[k]) == now &&
        Carries(r[k], d)
    ensures var r := Upsert(ss, d, now);
      forall k, l :: 0 <= k < |r| && 0 <= l < |r| && SameKey(r[k], d) && SameKey(r[l], d) ==> k == l
  {
    var r := Upsert(ss, d, now);
    UpsertKeepsWellFormed(ss, d, now);
    var k := match FirstMatch(ss, d) case Some(i) => i case None => |ss|;
    assert r[k] == (match FirstMatch(ss, d) case Some(i) => Refresh(ss[i], d, now) case None => Refresh(map[], d, now));
    RefreshKeepsKey(if k < |ss| then ss[k] else map[], d, now);
  }

  /** An announce changes no record whose key differs from the payload's, and never moves one. */
  lemma UpsertLeavesOthers(ss: seq<Record>, d: Record, now: int)
    requires HasRequiredFields(d)
    ensures |Upsert(ss, d, now)| == |ss| || |Upsert(ss, d, now)| == |ss| + 1
    ensures forall k :: 0 <= k < |ss| && !SameKey(ss[k], d) ==> Upsert(ss, d, now)[k] == ss[k]
  {
  }

  /** `sub` is `ss` with some elements dropped and the rest kept in order. */
  predicate Subsequence(sub: seq<Record>, ss: seq<Record>)
    decreases |ss|
  {
    || sub == []
    || (&& ss != []
        && ((sub[0] == ss[0] && Subsequence(sub[1..], ss[1..])) || Subsequence(sub, ss[1..])))
  }

  /** The listing keeps stored order: it only drops records. */
  lemma {:induction false} LiveIsSubsequence(ss: seq<Record>, now: int)
    ensures Subsequence(Live(ss, now), ss)
    decreases |ss|
  {
    if ss != [] {
      LiveIsSubsequence(ss[1..], now);
      var live := Live(ss, now);
      if IsFresh(ss[0], now) {
        assert live[0] == ss[0] && live[1..] == Live(ss[1..], now);
      } else {
        assert live == Live(ss[1..], now);
      }
    }
  }

  /** The listing distributes over concatenation: it keeps records in their stored order. */
  lemma {:induction false} LiveAppend(a: seq<Record>, b: seq<Record>, now: int)
    ensures Live(a + b, now) == Live(a, now) + Live(b, now)
  {
    if a == [] {
      assert a + b == b;
    } else {
      assert (a + b)[0] == a[0];
      assert (a + b)[1..] == a[1..] + b;
      LiveAppend(a[1..], b, now);
    }
  }

  /** A listing of a well-formed store is itself free of duplicate keys. */
  lemma {:induction false} LiveKeepsUniqueKeys(ss: seq<Record>, now: int)
    requires UniqueKeys(ss)
    ensures UniqueKeys(Live(ss, now))
  {
    if ss != [] {
      LiveKeepsUniqueKeys(ss[1..], now);
      var rest := Live(ss[1..], now);
      var r := Live(ss, now);
      if IsFresh(ss[0], now) {
        assert r == [ss[0]] + rest;
        forall i, j | 0 <= i < j < |r| ensures !SameKey(r[i], r[j]) {
          if i == 0 {
            assert r[j] in ss[1..];
          }
        }
      } else {
        assert r == rest;
      }
    }
  }

  /** The liveness bound is strict: age 59 is listed, age 60 is not, and a record without
      a stamp is listed only while `now` is below 60. */
  lemma FreshnessBoundary(r: Record, now: int)
    ensures LastSeen(r) == now - 59 ==> IsFresh(r, now)
    ensures LastSeen(r) == now - 60 ==> !IsFresh(r, now)
    ensures "last_seen" !in r ==> (IsFresh(r, now) <==> now < 60)
  {
  }

  /** In a list without duplicate keys, at most one record has a given payload's key. */
  lemma KeyedAtMostOnce(ss: seq<Record>, d: Record)
    requires UniqueKeys(ss)
    ensures forall k, l :: 0 <= k < |ss| && 0 <= l < |ss| && SameKey(ss[k], d) && SameKey(ss[l], d) ==> k == l
  {
    forall k, l | 0 <= k < |ss| && 0 <= l < |ss| && SameKey(ss[k], d) && SameKey(ss[l], d) ensures k == l {
      if k < l {
        assert false;
      } else if l < k {
        assert false;
      }
    }
  }

  /** An announce at `now` followed by a listing at `now` returns exactly one record for the
      announced key, carrying the announced fields. */
  lemma AnnounceThenList(ss: seq<Record>, d: Record, now: int)
    requires WellFormed(ss) && HasRequiredFields(d)
    ensures var live := Live(Upsert(ss, d, now), now);
      exists k :: 0 <= k < |live| && SameKey(live[k], d) &&
        Carries(live[k], d)
    ensures var live := Live(Upsert(ss, d, now), now);
      forall k, l :: 0 <= k < |live| && 0 <= l < |live| && SameKey(live[k], d) && SameKey(live[l], d) ==> k == l
  {
    var r := Upsert(ss, d, now);
    var live := Live(r, now);
    UpsertKeepsWellFormed(ss, d, now);
    LiveKeepsUniqueKeys(r, now);
    KeyedAtMostOnce(live, d);
    UpsertStampsOneRecord(ss, d, now);
    var k :| 0 <= k < |r| && SameKey(r[k], d) && LastSeen(r[k]) == now && Carries(r[k], d);
    assert r[k] in live;
    var m :| 0 <= m < |live| && live[m] == r[k];
    assert 0 <= m < |live| && SameKey(live[m], d) && Carries(live[m], d);
    assert exists j :: 0 <= j < |live| && SameKey(live[j], d) && Carries(live[j], d);
    assert live == Live(Upsert(ss, d, now), now);
  }

  /** Listing a single record. */
  lemma LiveOne(x: Record, now: int)
    ensures Live([x], now) == if IsFresh(x, now) then [x] else []
  {
    assert [x][1..] == [];
  }

  /** The announce of the worked example: Alpha on 1.2.3.4:7777, map District. */
  const Alpha: Record := map["name" := JStr("Alpha"), "public_ip" := JStr("1.2.3.4"), "port" := JInt(7777),
                             "map" := JStr("District")]

  /** The same host announced on port 7778. */
  const AlphaSecondPort: Record := Alpha["port" := JInt(7778)]

  /** The first announce into an empty registry is listed alone, stamped. */
  lemma FirstAnnounceListedAlone(t: int)
    ensures Upsert([], Alpha, t) == [Alpha["last_seen" := JInt(t)]]
    ensures Live(Upsert([], Alpha, t), t) == [Alpha["last_seen" := JInt(t)]]
  {
    UpsertAppendsNew([], Alpha, t);
    LiveOne(Alpha["last_seen" := JInt(t)], t);
  }

  /** The same IP on another port is a second record; both are listed. */
  lemma SecondPortAddsRecord(t: int)
    ensures var s1 := [Alpha["last_seen" := JInt(t)]];
      && Upsert(s1, AlphaSecondPort, t + 1) == s1 + [AlphaSecondPort["last_seen" := JInt(t + 1)]]
      && Live(Upsert(s1, AlphaSecondPort, t + 1), t + 1) == s1 + [AlphaSecondPort["last_seen" := JInt(t + 1)]]
  {
    var s1 := [Alpha["last_seen" := JInt(t)]];
    var b := AlphaSecondPort["last_seen" := JInt(t + 1)];
    assert !SameKey(s1[0], AlphaSecondPort) by {
      assert s1[0]["port"] == JInt(7777);
    }
    UpsertAppendsNew(s1, AlphaSecondPort, t + 1);
    LiveAppend(s1, [b], t + 1);
    LiveOne(s1[0], t + 1);
    LiveOne(b, t + 1);
  }

  /** When only the second key keeps announcing, the first record drops out of the listing
      once 60 seconds have passed since its stamp. */
  lemma FirstKeyExpires(t: int)
    ensures var s2 := [Alpha["last_seen" := JInt(t)], AlphaSecondPort["last_seen" := JInt(t + 1)]];
      Live(Upsert(s2, AlphaSecondPort, t + 50), t + 61) == [AlphaSecondPort["last_seen" := JInt(t + 50)]]
  {
    var a := Alpha["last_seen" := JInt(t)];
    var s2 := [a, AlphaSecondPort["last_seen" := JInt(t + 1)]];
    assert !SameKey(s2[0], AlphaSecondPort) by {
      assert s2[0]["port"] == JInt(7777);
    }
    assert SameKey(s2[1], AlphaSecondPort);
    assert FirstMatch(s2, AlphaSecondPort) == Some(1);
    var b := Refresh(s2[1], AlphaSecondPort, t + 50);
    assert b == AlphaSecondPort["last_seen" := JInt(t + 50)];
    assert Upsert(s2, AlphaSecondPort, t + 50) == [a] + [b];
    LiveAppend([a], [b], t + 61);
    LiveOne(a, t + 61);
    LiveOne(b, t + 61);
  }
}
