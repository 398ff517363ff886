/** Cached credentials: a list sorted by host, port and path, searched for the longest matching path. */
module Credentials {
  import opened Bytes

  const SLASH: byte := 47

  datatype Cred = Cred(user: bytes, password: bytes, host: bytes, port: bytes, path: bytes, activated: bool)

  function WithSlash(path: bytes): (r: bytes)
    ensures r != [] && r[|r| - 1] == SLASH
  {
    if path == [] || path[|path| - 1] != SLASH then path + [SLASH] else path
  }

  predicate SameKey(a: Cred, b: Cred) {
    a.host == b.host && a.port == b.port && a.path == b.path
  }

  /** Hosts and ports ascend; paths descend, so that a longer path comes before its prefixes. */
  predicate Before(a: Cred, b: Cred) {
    if a.host != b.host then Less(a.host, b.host)
    else if a.port != b.port then Less(a.port, b.port)
    else Less(b.path, a.path)
  }

  lemma BeforeTotal(a: Cred, b: Cred)
    ensures SameKey(a, b) || Before(a, b) || Before(b, a)
    ensures !(Before(a, b) && Before(b, a)) && (SameKey(a, b) ==> !Before(a, b))
  {
    hide Less;
    LessTotal(a.host, b.host);
    LessTotal(a.port, b.port);
    LessTotal(a.path, b.path);
  }

  lemma BeforeTrans(a: Cred, b: Cred, c: Cred)
    requires Before(a, b) && Before(b, c)
    ensures Before(a, c)
  {
    hide Less;
    LessTotal(a.host, b.host);
    LessTotal(a.port, b.port);
    if Less(a.host, b.host) && Less(b.host, c.host) {
      LessTrans(a.host, b.host, c.host);
      LessTotal(a.host, c.host);
    } else if a.host == b.host == c.host {
      if Less(a.port, b.port) && Less(b.port, c.port) {
        LessTrans(a.port, b.port, c.port);
      } else if a.port == b.port == c.port {
        LessTrans(c.path, b.path, a.path);
      }
    }
  }

  /** Strictly sorted, hence at most one entry for each host, port and path. */
  ghost predicate Sorted(cs: seq<Cred>) {
    forall i, j :: 0 <= i < j < |cs| ==> Before(cs[i], cs[j])
  }

  ghost predicate Slashed(cs: seq<Cred>) {
    forall i :: 0 <= i < |cs| ==> cs[i].path != [] && cs[i].path[|cs[i].path| - 1] == SLASH
  }

  lemma OneEntryPerKey(cs: seq<Cred>, i: nat, j: nat)
    requires Sorted(cs) && i < |cs| && j < |cs| && SameKey(cs[i], cs[j])
    ensures i == j
  {
    BeforeTotal(cs[i], cs[j]);
  }

  // ----- Updating -----

  /** `idx` separates the entries before `c` from the others. */
  ghost predicate Bounds(cs: seq<Cred>, c: Cred, idx: nat) {
    && idx <= |cs|
    && (forall i :: 0 <= i < idx ==> Before(cs[i], c))
    && (forall i :: idx <= i < |cs| ==> !Before(cs[i], c))
  }

  function Place(cs: seq<Cred>, c: Cred, idx: nat): seq<Cred>
    requires idx <= |cs|
  {
    if idx < |cs| && SameKey(cs[idx], c) then cs[idx := c] else cs[..idx] + [c] + cs[idx..]
  }

  lemma AfterBound(cs: seq<Cred>, c: Cred, idx: nat, i: nat)
    requires Sorted(cs) && Bounds(cs, c, idx) && idx <= i < |cs|
    requires i > idx || !SameKey(cs[idx], c)
    ensures Before(c, cs[i])
  {
    hide Before;
    BeforeTotal(cs[idx], c);
    if i > idx {
      assert Before(cs[idx], cs[i]);
      if SameKey(cs[idx], c) {
        SameKeyBefore(cs[idx], c, cs[i]);
      } else {
        BeforeTrans(c, cs[idx], cs[i]);
      }
    }
  }

  lemma SameKeyBefore(a: Cred, b: Cred, c: Cred)
    requires SameKey(a, b)
    ensures Before(a, c) == Before(b, c) && Before(c, a) == Before(c, b)
  {
  }

  /** The list stays sorted; the entry replaces the one with its key, and no other is touched. */
  lemma PlaceKeeps(cs: seq<Cred>, c: Cred, idx: nat)
    requires Sorted(cs) && Bounds(cs, c, idx)
    ensures Sorted(Place(cs, c, idx))
    ensures forall x :: x in Place(cs, c, idx) <==> x == c || (x in cs && !SameKey(x, c))
  {
    hide Before;
    var r := Place(cs, c, idx);
    forall i | idx <= i < |cs| && (i > idx || !SameKey(cs[idx], c))
      ensures Before(c, cs[i])
    {
      AfterBound(cs, c, idx, i);
    }
    forall i, j | 0 <= i < j < |r|
      ensures Before(r[i], r[j])
    {
      if idx < |cs| && SameKey(cs[idx], c) {
        SameKeyBefore(cs[idx], c, r[j]);
        SameKeyBefore(cs[idx], c, r[i]);
      }
    }
    forall x
      ensures x in r <==> x == c || (x in cs && !SameKey(x, c))
    {
      PlaceMembers(cs, c, idx, x);
    }
  }

  lemma PlaceMembers(cs: seq<Cred>, c: Cred, idx: nat, x: Cred)
    requires Sorted(cs) && Bounds(cs, c, idx)
    ensures x in Place(cs, c, idx) <==> x == c || (x in cs && !SameKey(x, c))
  {
    hide Before;
    var r := Place(cs, c, idx);
    if x in cs {
      var k :| 0 <= k < |cs| && cs[k] == x;
      BeforeTotal(x, c);
      BeforeTotal(c, x);
      if k >= idx && (k > idx || !SameKey(cs[idx], c)) {
        AfterBound(cs, c, idx, k);
      }
      if !SameKey(x, c) {
        assert r[if idx < |cs| && SameKey(cs[idx], c) then k else if k < idx then k else k + 1] == x;
      }
    }
    if x == c {
      assert r[idx] == c;
    }
    if x in r && x != c {
      var k :| 0 <= k < |r| && r[k] == x;
      assert x == cs[if |r| == |cs| || k < idx then k else k - 1];
      BeforeTotal(x, c);
      BeforeTotal(c, x);
      var i := if |r| == |cs| || k < idx then k else k - 1;
      if i >= idx {
        AfterBound(cs, c, idx, i);
      }
    }
  }

  // ----- Looking up -----

  predicate Prefix(p: bytes, s: bytes) {
    |p| <= |s| && s[..|p|] == p
  }

  lemma {:induction false} PrefixLess(p: bytes, s: bytes)
    requires Prefix(p, s)
    ensures p == s || Less(p, s)
    decreases |p|
  {
    if p != [] {
      assert s[..|p|][0] == p[0] && s[1..][..|p| - 1] == p[1..];
      PrefixLess(p[1..], s[1..]);
    }
  }

  lemma LongerPrefixFirst(p: bytes, q: bytes, s: bytes)
    requires Prefix(p, s) && Prefix(q, s) && |p| < |q|
    ensures Less(p, q)
  {
    assert q[..|p|] == s[..|q|][..|p|] == p;
    PrefixLess(p, q);
  }

  predicate Matches(c: Cred, host: bytes, port: bytes, path: bytes) {
    c.host == host && c.port == port && Prefix(c.path, path)
  }

  /** An entry that matches is not before the one with the whole path. */
  lemma MatchNotBefore(c: Cred, probe: Cred)
    requires Matches(c, probe.host, probe.port, probe.path)
    ensures !Before(c, probe)
  {
    PrefixLess(c.path, probe.path);
    LessTotal(c.path, probe.path);
  }

  /** Of two matching entries the earlier has the longer path. */
  lemma EarlierIsLonger(a: Cred, b: Cred, host: bytes, port: bytes, path: bytes)
    requires Matches(a, host, port, path) && Matches(b, host, port, path) && Before(a, b)
    ensures |a.path| > |b.path|
  {
    if |a.path| < |b.path| {
      LongerPrefixFirst(a.path, b.path, path);
      LessTotal(a.path, b.path);
    } else if |a.path| == |b.path| {
      LessTotal(a.path, a.path);
    }
  }

  /** Entries of one host and port stand together. */
  lemma Together(a: Cred, b: Cred, c: Cred)
    requires Before(a, b) && Before(b, c) && a.host == c.host && a.port == c.port
    ensures b.host == a.host && b.port == a.port
  {
    LessTotal(a.host, b.host);
    LessTotal(a.port, b.port);
  }

  class Factory {
    var creds: seq<Cred>

    ghost predicate Valid()
      reads this
    {
      Sorted(creds) && Slashed(creds)
    }

    constructor ()
      ensures Valid() && creds == []
    {
      creds := [];
    }

    /** Binary search for the first entry that is not before `c`. */
    method LowerBound(c: Cred) returns (idx: nat)
      requires Sorted(creds)
      ensures Bounds(creds, c, idx)
    {
      hide Before;
      var i, j := 0, |creds|;
      while i < j
        invariant 0 <= i <= j <= |creds|
        invariant forall k :: 0 <= k < i ==> Before(creds[k], c)
        invariant forall k :: j <= k < |creds| ==> !Before(creds[k], c)
      {
        var h := (i + j) / 2;
        if Before(creds[h], c) {
          forall k | 0 <= k < h
            ensures Before(creds[k], c)
          {
            BeforeTrans(creds[k], creds[h], c);
          }
          i := h + 1;
        } else {
          forall k | h < k < |creds|
            ensures !Before(creds[k], c)
          {
            if Before(creds[k], c) {
              BeforeTrans(creds[h], creds[k], c);
            }
          }
          j := h;
        }
      }
      idx := i;
    }

    method Update(c: Cred)
      requires Valid() && c.path != [] && c.path[|c.path| - 1] == SLASH
      modifies this
      ensures Valid()
      ensures forall x :: x in creds <==> x == c || (x in old(creds) && !SameKey(x, c))
    {
      var idx := LowerBound(c);
      PlaceKeeps(creds, c, idx);
      hide Before;
      if idx < |creds| && SameKey(creds[idx], c) {
        creds := creds[idx := c];
        return;
      }
      creds := creds[..idx] + [c] + creds[idx..];
    }

    /** The entry with the longest path that is a prefix of the requested one, if there is any. */
    method Find(host: bytes, port: bytes, path: bytes) returns (r: int)
      requires Valid()
      ensures -1 <= r < |creds|
      ensures r == -1 <==> forall k :: 0 <= k < |creds| ==> !Matches(creds[k], host, port, WithSlash(path))
      ensures r >= 0 ==> Matches(creds[r], host, port, WithSlash(path))
      ensures r >= 0 ==> forall k :: 0 <= k < |creds| && Matches(creds[k], host, port, WithSlash(path)) ==>
                           |creds[k].path| <= |creds[r].path|
    {
      hide Before;
      var search := WithSlash(path);
      var probe := Cred([], [], host, port, search, false);
      var idx := LowerBound(probe);
      forall k | 0 <= k < idx
        ensures !Matches(creds[k], host, port, search)
      {
        if Matches(creds[k], host, port, search) {
          MatchNotBefore(creds[k], probe);
        }
      }
      var i := idx;
      while i < |creds|
        invariant idx <= i <= |creds|
        invariant forall k :: 0 <= k < i ==> !Matches(creds[k], host, port, search)
      {
        var c := creds[i];
        if c.host != host || c.port != port {
          NoneLater(creds, probe, idx, i);
          return -1;
        }
        if Prefix(c.path, search) {
          forall k | i < k < |creds| && Matches(creds[k], host, port, search)
            ensures |creds[k].path| <= |c.path|
          {
            EarlierIsLonger(c, creds[k], host, port, search);
          }
          return i;
        }
        i := i + 1;
      }
      r := -1;
    }
  }

  /** Behind the first entry of another host or port nothing matches. */
  lemma NoneLater(cs: seq<Cred>, probe: Cred, idx: nat, i: nat)
    requires Sorted(cs) && Bounds(cs, probe, idx) && idx <= i < |cs|
    requires cs[i].host != probe.host || cs[i].port != probe.port
    ensures forall k :: i <= k < |cs| ==> !Matches(cs[k], probe.host, probe.port, probe.path)
  {
    forall k | i <= k < |cs|
      ensures !Matches(cs[k], probe.host, probe.port, probe.path)
    {
      if k > i && Matches(cs[k], probe.host, probe.port, probe.path) {
        AfterBound(cs, probe, idx, i);
        Together(probe, cs[i], cs[k]);
      }
    }
  }

  // ----- Runs of updates -----

  /** Every list the updates can lead to, whatever position a search finds. */
  ghost predicate Leads(cs: seq<Cred>, updates: seq<Cred>, r: seq<Cred>)
    decreases |updates|
  {
    if updates == [] then r == cs
    else exists idx :: Bounds(cs, updates[0], idx) && Leads(Place(cs, updates[0], idx), updates[1..], r)
  }

  /** The last update with the key of `c`, if there is one. */
  ghost predicate Latest(updates: seq<Cred>, c: Cred) {
    exists k :: 0 <= k < |updates| && updates[k] == c
                && forall j :: k < j < |updates| ==> !SameKey(updates[j], c)
  }

  /** Over every run from the empty list: sorted, and exactly the latest update of each key is stored. */
  lemma RunStoresLatest(updates: seq<Cred>, r: seq<Cred>)
    requires Leads([], updates, r)
    ensures Sorted(r) && forall c :: c in r <==> Latest(updates, c)
  {
    RunFrom([], updates, r);
  }

  lemma {:induction false} RunFrom(cs: seq<Cred>, updates: seq<Cred>, r: seq<Cred>)
    requires Sorted(cs) && Leads(cs, updates, r)
    ensures Sorted(r)
    ensures forall c :: c in r <==>
              Latest(updates, c) || (c in cs && forall j :: 0 <= j < |updates| ==> !SameKey(updates[j], c))
    decreases |updates|
  {
    hide Before, Place;
    if updates != [] {
      var u, rest := updates[0], updates[1..];
      var idx :| Bounds(cs, u, idx) && Leads(Place(cs, u, idx), rest, r);
      PlaceKeeps(cs, u, idx);
      RunFrom(Place(cs, u, idx), rest, r);
      forall c
        ensures c in r <==>
                  Latest(updates, c) || (c in cs && forall j :: 0 <= j < |updates| ==> !SameKey(updates[j], c))
      {
        LatestCons(u, rest, c);
        assert updates == [u] + rest;
      }
    }
  }

  lemma LatestCons(u: Cred, rest: seq<Cred>, c: Cred)
    ensures Latest([u] + rest, c) <==> Latest(rest, c) || (c == u && forall j :: 0 <= j < |rest| ==> !SameKey(rest[j], c))
  {
    hide SameKey, Latest;
    if Latest(rest, c) || (c == u && forall j :: 0 <= j < |rest| ==> !SameKey(rest[j], c)) {
      LatestSkips(u, rest, c);
    }
    if Latest([u] + rest, c) {
      LatestOf(u, rest, c);
    }
  }

  lemma LatestSkips(u: Cred, rest: seq<Cred>, c: Cred)
    requires Latest(rest, c) || (c == u && forall j :: 0 <= j < |rest| ==> !SameKey(rest[j], c))
    ensures Latest([u] + rest, c)
  {
    hide SameKey;
    var all := [u] + rest;
    assert forall j :: 0 < j < |all| ==> all[j] == rest[j - 1];
    if Latest(rest, c) {
      var k :| 0 <= k < |rest| && rest[k] == c && forall j :: k < j < |rest| ==> !SameKey(rest[j], c);
      assert all[k + 1] == c;
    } else {
      assert all[0] == c;
    }
  }

  lemma LatestOf(u: Cred, rest: seq<Cred>, c: Cred)
    requires Latest([u] + rest, c)
    ensures Latest(rest, c) || (c == u && forall j :: 0 <= j < |rest| ==> !SameKey(rest[j], c))
  {
    hide SameKey;
    var all := [u] + rest;
    var k :| 0 <= k < |all| && all[k] == c && forall j :: k < j < |all| ==> !SameKey(all[j], c);
    assert forall j :: 0 <= j < |rest| ==> rest[j] == all[j + 1];
    if k > 0 {
      assert rest[k - 1] == c;
    }
  }
}
