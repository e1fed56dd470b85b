/**
 * The client pool of the gRPC egress: a slice of clients, searched by URL, with a stale client removed by moving the
 * last one into its place.
 */
module GrpcPool {
  import opened JsStrings

  /** A client is known by a number; its connection state belongs to the environment. */
  datatype Client = Client(id: nat, url: string)

  datatype ConnState = Ready | Connecting | Idle | TransientFailure | Shutdown

  /** What the environment answers during one call: connection states, and the outcome of dialling. */
  datatype Env = Env(state: Client -> ConnState, dialled: Option<nat>)

  predicate Usable(s: ConnState) {
    s == Ready || s == Connecting || s == Idle
  }

  /** `newGRPCClient`: the configuration is validated before dialling. */
  function NewClient(url: string, env: Env): Option<Client> {
    if url == "" || env.dialled.None? then None else Some(Client(env.dialled.value, url))
  }

  predicate Distinct(pool: seq<Client>) {
    forall i, j :: 0 <= i < j < |pool| ==> pool[i].url != pool[j].url
  }

  /** The pool as a lookup table. */
  function Lookup(pool: seq<Client>, url: string): Option<Client> {
    if pool == [] then None
    else if pool[0].url == url then Some(pool[0])
    else Lookup(pool[1..], url)
  }

  /** What one call makes of the table entry for its URL: reused, replaced, added, or dropped when dialling fails. */
  function ObtainEntry(entry: Option<Client>, url: string, env: Env): Option<Client> {
    if entry.Some? && Usable(env.state(entry.value)) then entry else NewClient(url, env)
  }

  lemma {:induction false} LookupFound(pool: seq<Client>, i: nat)
    requires Distinct(pool) && i < |pool|
    ensures Lookup(pool, pool[i].url) == Some(pool[i])
  {
    if i > 0 {
      assert forall a, b :: 0 <= a < b < |pool[1..]| ==> pool[1..][a] == pool[a + 1] && pool[1..][b] == pool[b + 1];
      assert pool[0].url != pool[i].url;
      LookupFound(pool[1..], i - 1);
    }
  }

  lemma {:induction false} LookupMissing(pool: seq<Client>, url: string)
    ensures Lookup(pool, url).None? <==> forall i :: 0 <= i < |pool| ==> pool[i].url != url
    ensures Lookup(pool, url).Some? ==> Lookup(pool, url).value in pool && Lookup(pool, url).value.url == url
  {
    if pool != [] {
      LookupMissing(pool[1..], url);
      assert forall i :: 0 < i < |pool| ==> pool[i] == pool[1..][i - 1];
      assert pool[0].url != url && (forall i :: 0 <= i < |pool[1..]| ==> pool[1..][i].url != url) ==>
          forall i :: 0 <= i < |pool| ==> pool[i].url != url;
    }
  }

  /** Move the last client to place `i` and drop the last place. */
  function SwapRemove(pool: seq<Client>, i: nat): seq<Client>
    requires i < |pool|
  {
    pool[i := pool[|pool| - 1]][..|pool| - 1]
  }

  lemma SwapRemoveKeepsDistinct(pool: seq<Client>, i: nat)
    requires Distinct(pool) && i < |pool|
    ensures Distinct(SwapRemove(pool, i))
    ensures forall p :: 0 <= p < |pool| - 1 ==> SwapRemove(pool, i)[p].url != pool[i].url
  {
  }

  /** Removing by swap loses the client at `i` and no other: every other URL finds what it found before. */
  lemma SwapRemoveLookup(pool: seq<Client>, i: nat, url: string)
    requires Distinct(pool) && i < |pool|
    ensures Lookup(SwapRemove(pool, i), url) == if url == pool[i].url then None else Lookup(pool, url)
  {
    var rest := SwapRemove(pool, i);
    SwapRemoveKeepsDistinct(pool, i);
    LookupMissing(rest, url);
    LookupMissing(pool, url);
    if url != pool[i].url && Lookup(pool, url).Some? {
      var k :| 0 <= k < |pool| && pool[k] == Lookup(pool, url).value;
      LookupFound(rest, if k == |pool| - 1 then i else k);
    } else if url != pool[i].url {
      assert forall p :: 0 <= p < |rest| ==> rest[p] == pool[if p == i then |pool| - 1 else p];
    }
  }

  lemma AppendLookup(pool: seq<Client>, c: Client, url: string)
    requires Distinct(pool) && Lookup(pool, c.url).None?
    ensures Distinct(pool + [c])
    ensures Lookup(pool + [c], url) == if url == c.url then Some(c) else Lookup(pool, url)
  {
    LookupMissing(pool, c.url);
    LookupMissing(pool, url);
    LookupMissing(pool + [c], url);
    assert (pool + [c])[|pool|] == c;
    if url == c.url {
      LookupFound(pool + [c], |pool|);
    } else if Lookup(pool, url).Some? {
      var k :| 0 <= k < |pool| && pool[k] == Lookup(pool, url).value;
      assert (pool + [c])[k] == pool[k];
      LookupFound(pool + [c], k);
    }
  }

  /** The table entry of `u` after `calls`, computed on that entry alone: calls for other URLs do not touch it. */
  function EntryAfter(pool: seq<Client>, calls: seq<(string, Env)>, u: string): Option<Client> {
    if calls == [] then Lookup(pool, u)
    else
      var n := |calls| - 1;
      var entry := EntryAfter(pool, calls[..n], u);
      if calls[n].0 != u then entry else ObtainEntry(entry, u, calls[n].1)
  }

  /** The calls for one URL. */
  function Only(calls: seq<(string, Env)>, u: string): seq<(string, Env)> {
    if calls == [] then []
    else
      var n := |calls| - 1;
      Only(calls[..n], u) + if calls[n].0 == u then [calls[n]] else []
  }

  /** Calls for other URLs make no difference to the entry of `u`. */
  lemma {:induction false} OthersDoNotMatter(pool: seq<Client>, calls: seq<(string, Env)>, u: string)
    ensures EntryAfter(pool, calls, u) == EntryAfter(pool, Only(calls, u), u)
  {
    if calls != [] {
      var n := |calls| - 1;
      OthersDoNotMatter(pool, calls[..n], u);
      if calls[n].0 == u {
        assert Only(calls, u)[..|Only(calls, u)| - 1] == Only(calls[..n], u);
      } else {
        assert Only(calls, u) == Only(calls[..n], u);
      }
    }
  }

  /**
   * The last call decides: a client in state Ready, Connecting or Idle stays; one in TransientFailure or Shutdown, or
   * none, gives way to the client just dialled, if the URL is not empty and dialling succeeds.
   */
  lemma EntryMeans(pool: seq<Client>, calls: seq<(string, Env)>, u: string, env: Env)
    ensures var entry, after := EntryAfter(pool, calls, u), EntryAfter(pool, calls + [(u, env)], u);
            && (entry.Some? && env.state(entry.value) in {Ready, Connecting, Idle} ==> after == entry)
            && (entry.None? || env.state(entry.value) in {TransientFailure, Shutdown} ==>
                  (after == None <==> u == "" || env.dialled.None?)
                  && (after.Some? ==> after == Some(Client(env.dialled.value, u))))
  {
    assert (calls + [(u, env)])[..|calls|] == calls;
  }

  /** GRPCEgress, as far as its clients go. */
  class GrpcEgress {
    var grpcClients: seq<Client>

    constructor ()
      ensures grpcClients == []
    {
      grpcClients := [];
    }

    /**
     * `obtainGRPCClient`: the result and the new entry for the URL are those of the lookup table, all other URLs
     * keep theirs, and URLs stay pairwise distinct. A reused client leaves the slice untouched.
     */
    method ObtainGrpcClient(url: string, env: Env) returns (r: Option<Client>)
      requires Distinct(grpcClients)
      modifies this
      ensures Distinct(grpcClients)
      ensures var before := old(grpcClients);
              && r == Lookup(grpcClients, url) == ObtainEntry(Lookup(before, url), url, env)
              && (forall other :: other != url ==> Lookup(grpcClients, other) == Lookup(before, other))
              && (Lookup(before, url).Some? && Usable(env.state(Lookup(before, url).value)) ==> grpcClients == before)
      ensures var before := Lookup(old(grpcClients), url);
              if before.Some? && env.state(before.value) in {Ready, Connecting, Idle}
              then r == before && grpcClients == old(grpcClients)
              else if url == "" || env.dialled.None? then r == None
              else r == Some(Client(env.dialled.value, url))
    {
      ghost var before := grpcClients;
      LookupMissing(before, url);
      var i := 0;
      while i < |grpcClients|
        invariant 0 <= i <= |grpcClients| && grpcClients == before
        invariant forall p :: 0 <= p < i ==> grpcClients[p].url != url
      {
        var c := grpcClients[i];
        if c.url == url {
          LookupFound(grpcClients, i);
          if Usable(env.state(c)) {
            return Some(c);
          }
          SwapRemoveKeepsDistinct(before, i);
          forall u
            ensures Lookup(SwapRemove(before, i), u) == if u == url then None else Lookup(before, u)
          {
            SwapRemoveLookup(before, i, u);
          }
          grpcClients := grpcClients[i := grpcClients[|grpcClients| - 1]];
          grpcClients := grpcClients[..|grpcClients| - 1];
          break;
        }
        i := i + 1;
      }
      assert Lookup(grpcClients, url).None?;
      r := NewClient(url, env);
      if r.None? {
        return;
      }
      forall u
        ensures Lookup(grpcClients + [r.value], u) == if u == url then r else Lookup(grpcClients, u)
      {
        AppendLookup(grpcClients, r.value, u);
      }
      AppendLookup(grpcClients, r.value, url);
      grpcClients := grpcClients + [r.value];
    }

    /** Any sequence of calls: URLs stay distinct, and every answer is the entry its URL has at that moment. */
    method Serve(calls: seq<(string, Env)>) returns (answers: seq<Option<Client>>)
      requires Distinct(grpcClients)
      modifies this
      ensures Distinct(grpcClients) && |answers| == |calls|
      ensures var before := old(grpcClients);
              && (forall k :: 0 <= k < |calls| ==> answers[k] == EntryAfter(before, calls[..k + 1], calls[k].0))
              && (forall u :: Lookup(grpcClients, u) == EntryAfter(before, calls, u))
    {
      answers := [];
      ghost var before := grpcClients;
      for k := 0 to |calls|
        invariant Distinct(grpcClients) && |answers| == k
        invariant forall j :: 0 <= j < k ==> answers[j] == EntryAfter(before, calls[..j + 1], calls[j].0)
        invariant forall u :: Lookup(grpcClients, u) == EntryAfter(before, calls[..k], u)
      {
        assert calls[..k + 1][..k] == calls[..k];
        var r := ObtainGrpcClient(calls[k].0, calls[k].1);
        answers := answers + [r];
      }
      assert calls[..|calls|] == calls;
    }
  }
}
